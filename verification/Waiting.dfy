/** Who is ready and who waits for what, exactly, after each operation of the scheduler
    (cibos-kernel/src/scheduler.rs); and timer waits from registration to wake-up. */
module Waiting {
  import opened Selector
  import opened Scheduling
  import opened Options
  import opened Sequences

  // ---- order of the ready list ---------------------------------------------

  /** `t` is `s` with its one `lane` taken out, if it has one. */
  ghost predicate Without(s: seq<Lane>, lane: Lane, t: seq<Lane>) {
    if lane in s then exists k :: 0 <= k < |s| && TakenAt(s, lane, k, t) else t == s
  }

  predicate TakenAt(s: seq<Lane>, lane: Lane, k: nat, t: seq<Lane>)
    requires k < |s|
  {
    s[k] == lane && t == s[..k] + s[k + 1..]
  }

  /** `x` stands before `y`. */
  ghost predicate Before(s: seq<Lane>, x: Lane, y: Lane) {
    exists p, q :: 0 <= p < q < |s| && s[p] == x && s[q] == y
  }

  /** All of `r` stands in the order of `s`. */
  ghost predicate InOrder(s: seq<Lane>, r: seq<Lane>) {
    forall i, j :: 0 <= i < j < |r| ==> Before(s, r[i], r[j])
  }

  lemma RetainNone(drop: set<Lane>)
    ensures Retain([], drop) == []
  {
  }

  lemma RetainStep(s: seq<Lane>, drop: set<Lane>)
    requires s != []
    ensures var n := |s| - 1; Retain(s, drop) == Retain(s[..n], drop) + if s[n] in drop then [] else [s[n]]
  {
  }

  lemma {:induction false} RetainAll(s: seq<Lane>, drop: set<Lane>)
    requires forall i :: 0 <= i < |s| ==> s[i] !in drop
    ensures Retain(s, drop) == s
  {
    hide Retain;
    if s == [] {
      RetainNone(drop);
    } else {
      var n := |s| - 1;
      RetainAll(s[..n], drop);
      RetainStep(s, drop);
      assert s == s[..n] + [s[n]];
    }
  }

  /** Dropping the lane at place `k`. */
  lemma {:induction false} RetainAt(s: seq<Lane>, k: nat)
    requires Distinct(s) && k < |s|
    ensures Retain(s, {s[k]}) == s[..k] + s[k + 1..]
  {
    hide Retain;
    var n := |s| - 1;
    var front, drop := s[..n], {s[k]};
    RetainStep(s, drop);
    if k == n {
      RetainAll(front, drop);
      assert s[k + 1..] == [];
    } else {
      assert front[k] == s[k] && s[n] != s[k];
      RetainAt(front, k);
      assert front[..k] + front[k + 1..] + [s[n]] == s[..k] + s[k + 1..];
    }
  }

  lemma RetainOne(s: seq<Lane>, lane: Lane)
    requires Distinct(s)
    ensures Without(s, lane, Retain(s, {lane}))
  {
    hide Retain, Distinct;
    if lane in s {
      var k: nat :| k < |s| && s[k] == lane;
      RetainAt(s, k);
      assert TakenAt(s, lane, k, Retain(s, {lane}));
    } else {
      RetainAll(s, {lane});
    }
  }

  /** Lanes that stay keep their order. */
  lemma {:induction false} RetainOrder(s: seq<Lane>, drop: set<Lane>)
    ensures InOrder(s, Retain(s, drop))
  {
    hide InOrder;
    if s == [] {
      EmptyInOrder(s);
    } else {
      var n := |s| - 1;
      var front := s[..n];
      RetainOrder(front, drop);
      OrderGrows(front, Retain(front, drop), s[n]);
      assert front + [s[n]] == s;
      assert Retain(s, drop) == Retain(front, drop) + if s[n] in drop then [] else [s[n]];
      assert Retain(front, drop) + [] == Retain(front, drop);
    }
  }

  lemma EmptyInOrder(s: seq<Lane>)
    ensures InOrder(s, [])
  {
  }

  lemma OrderGrows(s: seq<Lane>, r: seq<Lane>, x: Lane)
    requires InOrder(s, r) && forall l :: l in r ==> l in s
    ensures InOrder(s + [x], r) && InOrder(s + [x], r + [x])
  {
    forall i, j | 0 <= i < j < |r|
      ensures Before(s + [x], r[i], r[j])
    {
      assert Before(s, r[i], r[j]);
      var p, q :| 0 <= p < q < |s| && s[p] == r[i] && s[q] == r[j];
      assert (s + [x])[p] == r[i] && (s + [x])[q] == r[j];
    }
    forall i | 0 <= i < |r|
      ensures Before(s + [x], r[i], x)
    {
      assert r[i] in s;
      var p :| 0 <= p < |s| && s[p] == r[i];
      assert (s + [x])[p] == r[i] && (s + [x])[|s|] == x;
    }
  }

  // ---- waits, signals and completions --------------------------------------

  /** No lane but `lane` waits differently than before. */
  ghost predicate OthersWait(before: map<Lane, Resource>, after: map<Lane, Resource>, lane: Lane) {
    forall l: Lane :: l != lane ==> WaitsFor(after, l) == WaitsFor(before, l)
  }

  function WaitsFor(stalled: map<Lane, Resource>, l: Lane): Option<Resource> {
    if l in stalled then Some(stalled[l]) else None
  }

  /** Whatever the resource, the lane is stalled on exactly it, and off the ready list. */
  lemma RegisterExactly(s: Sched, lane: Lane, r: Resource)
    requires Ok(s)
    ensures var s' := RegisterWait(s, lane, r);
            && WaitsFor(s'.stalled, lane) == Some(r) && OthersWait(s.stalled, s'.stalled, lane)
            && Without(s.ready, lane, s'.ready) && s'.now == s.now
  {
    RetainOne(s.ready, lane);
  }

  lemma CompleteExactly(s: Sched, lane: Lane)
    requires Ok(s)
    ensures var s' := NotifyComplete(s, lane);
            && WaitsFor(s'.stalled, lane) == None && OthersWait(s.stalled, s'.stalled, lane)
            && Without(s.ready, lane, s'.ready) && s'.now == s.now
  {
    RetainOne(s.ready, lane);
  }

  /** A lane that becomes ready queues up last; one already ready keeps its place. */
  lemma SignalExactly(s: Sched, lane: Lane)
    requires Ok(s)
    ensures var s' := SignalReady(s, lane);
            && WaitsFor(s'.stalled, lane) == None && OthersWait(s.stalled, s'.stalled, lane)
            && (lane in s.ready ==> s'.ready == s.ready) && (lane !in s.ready ==> s'.ready == s.ready + [lane])
            && s'.now == s.now
  {
    hide Distinct;
  }

  /** A dispatch takes the batch and leaves the others in order. */
  lemma DispatchExactly(s: Sched, chosen: seq<Lane>)
    ensures var s' := TakeBatch(s, chosen);
            && (forall l: Lane :: l in s'.ready <==> l in s.ready && l !in chosen)
            && InOrder(s.ready, s'.ready)
            && s'.stalled == s.stalled && s'.now == s.now
  {
    RetainOrder(s.ready, set l | l in chosen);
  }

  // ---- the clock -----------------------------------------------------------

  predicate Increasing(s: seq<Lane>) {
    forall i, j :: 0 <= i < j < |s| ==> s[i] < s[j]
  }

  lemma {:induction false} MaturedInOrder(stalled: map<Lane, Resource>, keys: seq<Lane>, now: nat, k: nat)
    requires k <= |keys| && Increasing(keys) && forall i :: 0 <= i < |keys| ==> keys[i] in stalled
    ensures Increasing(MaturedUpTo(stalled, keys, now, k))
  {
    if k > 0 {
      MaturedInOrder(stalled, keys, now, k - 1);
      var r := MaturedUpTo(stalled, keys, now, k - 1);
      forall i | 0 <= i < |r|
        ensures r[i] < keys[k - 1]
      {
        assert r[i] in keys[..k - 1];
      }
    }
  }

  lemma {:induction false} ReleaseAppends(s: Sched, lanes: seq<Lane>, k: nat)
    requires k <= |lanes| && Increasing(lanes) && forall l :: l in lanes ==> l !in s.ready
    ensures Release(s, lanes, k).ready == s.ready + lanes[..k]
  {
    if k > 0 {
      ReleaseAppends(s, lanes, k - 1);
      assert lanes[..k] == lanes[..k - 1] + [lanes[k - 1]];
      NewInOrder(lanes, k - 1);
    }
  }

  lemma NewInOrder(lanes: seq<Lane>, k: nat)
    requires k < |lanes| && Increasing(lanes)
    ensures lanes[k] in lanes && lanes[k] !in lanes[..k]
  {
  }

  /** The lanes whose timers have matured queue up behind the ready ones, in ascending
      order; every other wait stays. */
  lemma ClockExactly(s: Sched, now: nat) returns (woken: seq<Lane>)
    requires Ok(s)
    ensures forall l: Lane :: l in woken <==> l in s.stalled && Matured(s.stalled[l], now)
    ensures var s' := ClockTo(s, now);
            && Increasing(woken) && s'.ready == s.ready + woken && s'.now == now
            && forall l: Lane :: WaitsFor(s'.stalled, l) == if l in woken then None else WaitsFor(s.stalled, l)
  {
    hide Distinct, MaturedLanes, Release, Matured, Increasing;
    woken := MaturedLanes(s.stalled, now);
    WokenInOrder(s.stalled, now);
    ReleaseAppends(s.(now := now), woken, |woken|);
    assert woken[..|woken|] == woken;
    ClockToSpec(s, now);
  }

  lemma WokenInOrder(stalled: map<Lane, Resource>, now: nat)
    ensures Increasing(MaturedLanes(stalled, now))
  {
    hide MaturedUpTo, Ascending;
    MaturedInOrder(stalled, Ascending(stalled.Keys), now, |Ascending(stalled.Keys)|);
  }

  /** The clock moves by `delta`, and stops at its largest value. */
  lemma AdvanceExactly(s: Sched, delta: nat)
    requires Ok(s) && s.now <= CLOCK_MAX
    ensures var now := if s.now + delta <= CLOCK_MAX then s.now + delta else CLOCK_MAX;
            AdvanceClock(s, delta) == ClockTo(s, now) && AdvanceClock(s, delta).now == now
  {
    hide ClockTo, Distinct;
    ClockToSpec(s, if s.now + delta <= CLOCK_MAX then s.now + delta else CLOCK_MAX);
  }

  /** `d` is the earliest deadline any lane waits for. */
  ghost predicate IsEarliest(stalled: map<Lane, Resource>, d: nat) {
    (exists l: Lane :: OnTimer(stalled, l, d)) && forall l: Lane, e: nat :: OnTimer(stalled, l, e) ==> d <= e
  }

  predicate OnTimer(stalled: map<Lane, Resource>, lane: Lane, d: nat) {
    lane in stalled && stalled[lane] == Timer(d)
  }

  /** The clock moves to the earliest deadline, or stays if that has passed. */
  lemma NextTimerExactly(s: Sched, d: nat)
    requires Ok(s) && s.now <= CLOCK_MAX && IsEarliest(s.stalled, d)
    ensures AdvanceToNextTimer(s) == (ClockTo(s, if s.now >= d then s.now else d), true)
  {
    hide ClockTo, Distinct, Ok, Earliest;
    EarliestSpec(s.stalled);
    var l: Lane :| OnTimer(s.stalled, l, d);
    assert s.stalled[l].Timer?;
    var k: Lane :| k in s.stalled && s.stalled[k] == Timer(Earliest(s.stalled).value);
    assert OnTimer(s.stalled, k, Earliest(s.stalled).value);
  }

  // ---- timer waits over runs -----------------------------------------------

  /** The operation names another lane, or none. */
  predicate Spares(op: Op, lane: Lane) {
    match op
    case Signal(l) => l != lane
    case Wait(l, _) => l != lane
    case Complete(l) => l != lane
    case Dispatch(chosen) => lane !in chosen
    case _ => true
  }

  predicate Ticks(op: Op) {
    op.Advance? || op.NextTimer?
  }

  ghost predicate Ready(s: Sched, lane: Lane) {
    lane in s.ready && lane !in s.stalled
  }

  /** Waiting, or ready if the clock was moved and has reached the deadline. */
  ghost predicate WaitsOrWoke(s: Sched, lane: Lane, d: nat, ticked: bool) {
    if ticked && s.now >= d then Ready(s, lane) else OnTimer(s.stalled, lane, d) && lane !in s.ready
  }

  lemma ClockWakes(s: Sched, now: nat, lane: Lane, d: nat, ticked: bool)
    requires Ok(s) && WaitsOrWoke(s, lane, d, ticked) && s.now <= now
    ensures WaitsOrWoke(ClockTo(s, now), lane, d, true)
  {
    hide ClockTo, Distinct;
    ClockToSpec(s, now);
  }

  lemma TickWakes(s: Sched, op: Op, lane: Lane, d: nat, ticked: bool)
    requires Ok(s) && ClockOk(s) && Ticks(op) && WaitsOrWoke(s, lane, d, ticked)
    ensures WaitsOrWoke(Apply(s, op), lane, d, ticked || OnTimer(s.stalled, lane, d) || op.Advance?)
  {
    hide ClockTo, Ok, Earliest;
    match op {
      case Advance(delta) =>
        ClockWakes(s, if s.now + delta > CLOCK_MAX then CLOCK_MAX else s.now + delta, lane, d, ticked);
      case NextTimer =>
        EarliestSpec(s.stalled);
        if Earliest(s.stalled).Some? {
          var e := Earliest(s.stalled).value;
          ClockWakes(s, if s.now >= e then s.now else e, lane, d, ticked);
        }
    }
  }

  lemma OtherStep(s: Sched, op: Op, lane: Lane, d: nat, ticked: bool)
    requires !Ticks(op) && Spares(op, lane) && WaitsOrWoke(s, lane, d, ticked)
    ensures WaitsOrWoke(Apply(s, op), lane, d, ticked)
  {
  }

  ghost predicate Ticked(ops: seq<Op>) {
    exists i :: 0 <= i < |ops| && Ticks(ops[i])
  }

  /** Over every run in which nothing names the lane: it waits on its timer until the clock
      is moved to the deadline or beyond, and is ready from then on. */
  lemma {:induction false} TimerWakes(s: Sched, ops: seq<Op>, lane: Lane, d: nat)
    requires Ok(s) && ClockOk(s) && OnTimer(s.stalled, lane, d)
    requires forall i :: 0 <= i < |ops| ==> Spares(ops[i], lane)
    ensures WaitsOrWoke(Run(s, ops), lane, d, Ticked(ops))
    decreases |ops|
  {
    hide ClockOk, Apply;
    if ops == [] {
      hide Distinct;
    } else {
      hide Ok, WaitsOrWoke;
      var n := |ops| - 1;
      var front, op := ops[..n], ops[n];
      TimerWakes(s, front, lane, d);
      RunKeeps(s, front);
      TickedSplits(ops);
      var t := Run(s, front);
      LastStep(t, op, lane, d, Ticked(front));
    }
  }

  lemma TickedSplits(ops: seq<Op>)
    requires ops != []
    ensures Ticked(ops) <==> Ticked(ops[..|ops| - 1]) || Ticks(ops[|ops| - 1])
  {
    var n := |ops| - 1;
    if Ticked(ops) {
      var i :| 0 <= i < |ops| && Ticks(ops[i]);
      assert i < n ==> Ticks(ops[..n][i]);
    }
    if Ticked(ops[..n]) {
      var i :| 0 <= i < n && Ticks(ops[..n][i]);
      assert Ticks(ops[i]);
    }
  }

  lemma LastStep(t: Sched, op: Op, lane: Lane, d: nat, ticked: bool)
    requires Ok(t) && ClockOk(t) && Spares(op, lane) && WaitsOrWoke(t, lane, d, ticked)
    ensures WaitsOrWoke(if Allowed(t, op) then Apply(t, op) else t, lane, d, ticked || Ticks(op))
  {
    hide Ok, ClockOk, Apply;
    if Ticks(op) {
      TickWakes(t, op, lane, d, ticked);
    } else if Allowed(t, op) {
      OtherStep(t, op, lane, d, ticked);
    }
  }

  /** Waiting for `Timer(d)` and left alone, a lane is ready once the clock reaches `d`. */
  lemma WaitEnds(s: Sched, lane: Lane, d: nat, ops: seq<Op>)
    requires Ok(s) && ClockOk(s) && s.now < d <= CLOCK_MAX
    requires forall i :: 0 <= i < |ops| ==> Spares(ops[i], lane)
    ensures var t := Run(RegisterWait(s, lane, Timer(d)), ops);
            if t.now >= d then Ready(t, lane) else OnTimer(t.stalled, lane, d) && lane !in t.ready
  {
    hide ClockOk, Ok, Run;
    var w := RegisterWait(s, lane, Timer(d));
    assert Ok(w) && ClockOk(w) by {
      ApplyKeeps(s, Wait(lane, Timer(d)));
    }
    TimerWakes(w, ops, lane, d);
    if !Ticked(ops) {
      StillClock(w, ops);
    }
  }

  lemma {:induction false} StillClock(s: Sched, ops: seq<Op>)
    requires !Ticked(ops)
    ensures Run(s, ops).now == s.now
    decreases |ops|
  {
    hide Retain, AdvanceClock, AdvanceToNextTimer;
    if ops != [] {
      TickedSplits(ops);
      StillClock(s, ops[..|ops| - 1]);
    }
  }
}
