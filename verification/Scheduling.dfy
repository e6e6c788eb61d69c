/** The scheduler's ready and stalled lists and its clock (cibos-kernel/src/scheduler.rs),
    as values: every operation, and what every run of operations keeps. */
module Scheduling {
  import opened Selector
  import opened Options
  import opened Sequences

  const CLOCK_MAX: nat := 0xFFFF_FFFF_FFFF_FFFF

  /** What a stalled lane waits for; deadlines and clock in nanoseconds. */
  datatype Resource = ChannelData(id: nat) | ChannelBuffer(id: nat) | Memory(bytes: nat) | DiskIo(handle: nat)
                    | NetworkIo(handle: nat) | Timer(deadline: nat)

  datatype Sched = Sched(ready: seq<Lane>, stalled: map<Lane, Resource>, now: nat)

  // ---- lists and sorted keys -----------------------------------------------

  /** The list without the dropped lanes, order kept. */
  function Retain(s: seq<Lane>, drop: set<Lane>): (r: seq<Lane>)
    ensures forall x: Lane :: x in r <==> x in s && x !in drop
  {
    if s == [] then []
    else Retain(s[..|s| - 1], drop) + if s[|s| - 1] in drop then [] else [s[|s| - 1]]
  }

  lemma {:induction false} RetainDistinct(s: seq<Lane>, drop: set<Lane>)
    requires Distinct(s)
    ensures Distinct(Retain(s, drop))
  {
    if s != [] {
      RetainDistinct(s[..|s| - 1], drop);
      assert s[|s| - 1] !in s[..|s| - 1];
    }
  }

  predicate IsSmallest(keys: set<nat>, m: nat) {
    m in keys && forall x: nat :: x in keys ==> m <= x
  }

  lemma {:induction false} SmallestExists(keys: set<nat>)
    requires keys != {}
    ensures exists m: nat :: IsSmallest(keys, m)
  {
    var y :| y in keys;
    if keys == {y} {
      assert IsSmallest(keys, y);
    } else {
      SmallestExists(keys - {y});
      var m: nat :| IsSmallest(keys - {y}, m);
      assert keys == (keys - {y}) + {y};
      assert IsSmallest(keys, if y < m then y else m);
    }
  }

  function Smallest(keys: set<nat>): (m: nat)
    requires keys != {}
    ensures m in keys && forall x: nat :: x in keys ==> m <= x
  {
    SmallestExists(keys);
    var m: nat :| IsSmallest(keys, m);
    m
  }

  /** Keys in ascending order, the order of an ordered map. */
  function Ascending(keys: set<nat>): (s: seq<nat>)
    ensures forall x: nat :: x in s <==> x in keys
    ensures forall i, j :: 0 <= i < j < |s| ==> s[i] < s[j]
    decreases |keys|
  {
    if keys == {} then [] else [Smallest(keys)] + Ascending(keys - {Smallest(keys)})
  }

  // ---- operations ----------------------------------------------------------

  function RegisterWait(s: Sched, lane: Lane, r: Resource): Sched {
    s.(ready := Retain(s.ready, {lane}), stalled := s.stalled[lane := r])
  }

  function SignalReady(s: Sched, lane: Lane): Sched {
    s.(stalled := s.stalled - {lane}, ready := if lane in s.ready then s.ready else s.ready + [lane])
  }

  function NotifyComplete(s: Sched, lane: Lane): Sched {
    s.(ready := Retain(s.ready, {lane}), stalled := s.stalled - {lane})
  }

  /** A timer wait whose deadline the clock has reached. */
  predicate Matured(r: Resource, now: nat) {
    r.Timer? && now >= r.deadline
  }

  /** Of the first `k` keys, those whose wait has matured. */
  function MaturedUpTo(stalled: map<Lane, Resource>, keys: seq<Lane>, now: nat, k: nat): (r: seq<Lane>)
    requires k <= |keys| && forall i :: 0 <= i < |keys| ==> keys[i] in stalled
    ensures forall x: Lane :: x in r <==> x in keys[..k] && Matured(stalled[x], now)
  {
    if k == 0 then []
    else
      assert keys[..k] == keys[..k - 1] + [keys[k - 1]];
      MaturedUpTo(stalled, keys, now, k - 1) + if Matured(stalled[keys[k - 1]], now) then [keys[k - 1]] else []
  }

  function MaturedLanes(stalled: map<Lane, Resource>, now: nat): (r: seq<Lane>)
    ensures forall x: Lane :: x in r <==> x in stalled && Matured(stalled[x], now)
  {
    var keys := Ascending(stalled.Keys);
    assert keys[..|keys|] == keys;
    MaturedUpTo(stalled, keys, now, |keys|)
  }

  /** Ready the first `k` of `lanes`. */
  function Release(s: Sched, lanes: seq<Lane>, k: nat): Sched
    requires k <= |lanes|
  {
    if k == 0 then s else SignalReady(Release(s, lanes, k - 1), lanes[k - 1])
  }

  /** Move the clock to `now` and ready every lane whose timer has matured. */
  function ClockTo(s: Sched, now: nat): Sched {
    var matured := MaturedLanes(s.stalled, now);
    Release(s.(now := now), matured, |matured|)
  }

  function AdvanceClock(s: Sched, delta: nat): Sched {
    ClockTo(s, if s.now + delta > CLOCK_MAX then CLOCK_MAX else s.now + delta)
  }

  /** Earliest timer deadline among the first `k` keys. */
  function EarliestUpTo(stalled: map<Lane, Resource>, keys: seq<Lane>, k: nat): Option<nat>
    requires k <= |keys| && forall i :: 0 <= i < |keys| ==> keys[i] in stalled
  {
    if k == 0 then None
    else
      var e := EarliestUpTo(stalled, keys, k - 1);
      match stalled[keys[k - 1]]
      case Timer(d) => if e.Some? && e.value <= d then e else Some(d)
      case _ => e
  }

  function Earliest(stalled: map<Lane, Resource>): Option<nat> {
    var keys := Ascending(stalled.Keys);
    EarliestUpTo(stalled, keys, |keys|)
  }

  function AdvanceToNextTimer(s: Sched): (Sched, bool) {
    match Earliest(s.stalled)
    case None => (s, false)
    case Some(d) => (ClockTo(s, if s.now >= d then s.now else d), true)
  }

  /** Take the chosen lanes off the ready list. */
  function TakeBatch(s: Sched, chosen: seq<Lane>): Sched {
    s.(ready := Retain(s.ready, set l | l in chosen))
  }

  // ---- invariant -----------------------------------------------------------

  /** No lane is ready twice, and none is ready and stalled. */
  ghost predicate Ok(s: Sched) {
    Distinct(s.ready) && forall l: Lane :: l in s.ready ==> l !in s.stalled
  }

  lemma RegisterKeeps(s: Sched, lane: Lane, r: Resource)
    requires Ok(s)
    ensures Ok(RegisterWait(s, lane, r))
  {
    RetainDistinct(s.ready, {lane});
  }

  lemma SignalKeeps(s: Sched, lane: Lane)
    requires Ok(s)
    ensures Ok(SignalReady(s, lane)) && lane in SignalReady(s, lane).ready
  {
  }

  lemma CompleteKeeps(s: Sched, lane: Lane)
    requires Ok(s)
    ensures Ok(NotifyComplete(s, lane)) && lane !in NotifyComplete(s, lane).ready
            && lane !in NotifyComplete(s, lane).stalled
  {
    RetainDistinct(s.ready, {lane});
  }

  lemma {:induction false} ReleaseSpec(s: Sched, lanes: seq<Lane>, k: nat)
    requires Ok(s) && k <= |lanes|
    ensures var s' := Release(s, lanes, k);
            && Ok(s') && s'.now == s.now && s'.stalled == s.stalled - (set l | l in lanes[..k])
            && s.ready <= s'.ready && forall l: Lane :: l in s'.ready <==> l in s.ready || l in lanes[..k]
  {
    hide Ok;
    if k > 0 {
      ReleaseSpec(s, lanes, k - 1);
      SignalKeeps(Release(s, lanes, k - 1), lanes[k - 1]);
      assert lanes[..k] == lanes[..k - 1] + [lanes[k - 1]];
    }
  }

  /** Moving the clock readies exactly the matured timer waits, behind the lanes already
      ready, and leaves every other wait in place. */
  lemma ClockToSpec(s: Sched, now: nat)
    requires Ok(s)
    ensures var s' := ClockTo(s, now);
            && Ok(s') && s'.now == now && s.ready <= s'.ready
            && (forall l: Lane :: l in s'.stalled <==> l in s.stalled && !Matured(s.stalled[l], now))
            && (forall l: Lane :: l in s'.stalled ==> s'.stalled[l] == s.stalled[l])
            && (forall l: Lane :: l in s'.ready <==> l in s.ready || (l in s.stalled && Matured(s.stalled[l], now)))
  {
    var m := MaturedLanes(s.stalled, now);
    ReleaseSpec(s.(now := now), m, |m|);
    assert m[..|m|] == m;
  }

  /** No matured timer stays stalled after an advance, and the clock never goes back. */
  lemma AdvanceClockSpec(s: Sched, delta: nat)
    requires Ok(s) && s.now <= CLOCK_MAX
    ensures var s' := AdvanceClock(s, delta);
            && Ok(s') && s.now <= s'.now <= CLOCK_MAX && (s'.now < CLOCK_MAX ==> s'.now == s.now + delta)
            && (forall l: Lane :: l in s'.stalled ==> !Matured(s'.stalled[l], s'.now))
            && (forall l: Lane :: l in s.stalled && l !in s'.stalled ==> l in s'.ready && Matured(s.stalled[l], s'.now))
  {
    hide ClockTo, Ok, Matured;
    ClockToSpec(s, if s.now + delta > CLOCK_MAX then CLOCK_MAX else s.now + delta);
  }

  lemma {:induction false} EarliestUpToSpec(stalled: map<Lane, Resource>, keys: seq<Lane>, k: nat)
    requires k <= |keys| && forall i :: 0 <= i < |keys| ==> keys[i] in stalled
    ensures var r := EarliestUpTo(stalled, keys, k);
            && (r.None? <==> forall i :: 0 <= i < k ==> !stalled[keys[i]].Timer?)
            && (r.Some? ==> (exists i :: 0 <= i < k && stalled[keys[i]] == Timer(r.value))
                            && forall i :: 0 <= i < k && stalled[keys[i]].Timer? ==>
                                 r.value <= stalled[keys[i]].deadline)
  {
    if k > 0 {
      EarliestUpToSpec(stalled, keys, k - 1);
    }
  }

  lemma EarliestSpec(stalled: map<Lane, Resource>)
    ensures Earliest(stalled).None? <==> forall l: Lane :: l in stalled ==> !stalled[l].Timer?
    ensures Earliest(stalled).Some? ==> (exists l: Lane :: l in stalled && stalled[l] == Timer(Earliest(stalled).value))
                                        && forall l: Lane :: l in stalled && stalled[l].Timer? ==>
                                             Earliest(stalled).value <= stalled[l].deadline
  {
    var keys := Ascending(stalled.Keys);
    EarliestUpToSpec(stalled, keys, |keys|);
    forall l: Lane | l in stalled
      ensures exists i :: 0 <= i < |keys| && keys[i] == l
    {
      assert l in keys;
    }
  }

  /** True exactly when some lane waits for a timer; then the clock moves to the earliest
      deadline at most, some lane becomes ready, and no matured timer stays stalled. */
  lemma NextTimerSpec(s: Sched)
    requires Ok(s) && s.now <= CLOCK_MAX
    requires forall l: Lane :: l in s.stalled && s.stalled[l].Timer? ==> s.stalled[l].deadline <= CLOCK_MAX
    ensures var (s', found) := AdvanceToNextTimer(s);
            && Ok(s') && s.now <= s'.now <= CLOCK_MAX
            && (found <==> exists l: Lane :: l in s.stalled && s.stalled[l].Timer?)
            && (!found ==> s' == s)
            && (forall l: Lane :: l in s.stalled && s.stalled[l].Timer? && s'.now != s.now ==>
                  s'.now <= s.stalled[l].deadline)
            && (found ==> exists l: Lane :: l in s.stalled && l !in s'.stalled && l in s'.ready)
            && (found ==> forall l: Lane :: l in s'.stalled ==> !Matured(s'.stalled[l], s'.now))
  {
    EarliestSpec(s.stalled);
    match Earliest(s.stalled) {
      case None =>
      case Some(d) =>
        ClockToSpec(s, if s.now >= d then s.now else d);
        var l: Lane :| l in s.stalled && s.stalled[l] == Timer(d);
        assert Matured(s.stalled[l], AdvanceToNextTimer(s).0.now);
    }
  }

  // ---- dispatch ------------------------------------------------------------

  /** The batch and what stays ready are together what was ready. */
  lemma DispatchSplits(s: Sched, chosen: seq<Lane>)
    requires Ok(s) && Distinct(chosen) && forall l: Lane :: l in chosen ==> l in s.ready
    ensures var s' := TakeBatch(s, chosen);
            Ok(s') && multiset(s.ready) == multiset(chosen) + multiset(s'.ready) && s'.stalled == s.stalled
            && s'.now == s.now
  {
    var drop := set l | l in chosen;
    RetainDistinct(s.ready, drop);
    var r: seq<Lane> := Retain(s.ready, drop);
    var before: multiset<Lane>, batch: multiset<Lane>, after: multiset<Lane> :=
      multiset(s.ready), multiset(chosen), multiset(r);
    forall l: Lane
      ensures before[l] == batch[l] + after[l]
    {
      OnceIfIn(s.ready, l);
      OnceIfIn(chosen, l);
      OnceIfIn(r, l);
    }
    assert before == batch + after;
  }

  function Times(s: seq<Lane>, l: Lane): nat {
    multiset(s)[l]
  }

  lemma OnceIfIn(s: seq<Lane>, l: Lane)
    requires Distinct(s)
    ensures Times(s, l) == if l in s then 1 else 0
  {
    AtMostOnce(s, l);
    assert l in s <==> l in multiset(s);
  }

  // ---- runs ----------------------------------------------------------------

  datatype Op = Signal(lane: Lane) | Wait(lane: Lane, r: Resource) | Complete(lane: Lane) | Advance(delta: nat)
              | NextTimer
              | Dispatch(chosen: seq<Lane>)

  /** Deadlines are clock values; a batch is a selection of ready lanes. */
  ghost predicate Allowed(s: Sched, op: Op) {
    match op
    case Wait(_, Timer(d)) => d <= CLOCK_MAX
    case Dispatch(chosen) => Distinct(chosen) && forall l: Lane :: l in chosen ==> l in s.ready
    case _ => true
  }

  function Apply(s: Sched, op: Op): Sched {
    match op
    case Signal(l) => SignalReady(s, l)
    case Wait(l, r) => RegisterWait(s, l, r)
    case Complete(l) => NotifyComplete(s, l)
    case Advance(delta) => AdvanceClock(s, delta)
    case NextTimer => AdvanceToNextTimer(s).0
    case Dispatch(chosen) => TakeBatch(s, chosen)
  }

  ghost predicate ClockOk(s: Sched) {
    s.now <= CLOCK_MAX && forall l: Lane :: l in s.stalled && s.stalled[l].Timer? ==> s.stalled[l].deadline <= CLOCK_MAX
  }

  ghost function Run(s: Sched, ops: seq<Op>): Sched {
    if ops == [] then s
    else
      var t := Run(s, ops[..|ops| - 1]);
      if Allowed(t, ops[|ops| - 1]) then Apply(t, ops[|ops| - 1]) else t
  }

  lemma ClockToKeeps(s: Sched, now: nat)
    requires Ok(s) && ClockOk(s) && s.now <= now <= CLOCK_MAX
    ensures Ok(ClockTo(s, now)) && ClockOk(ClockTo(s, now)) && ClockTo(s, now).now == now
  {
    hide ClockTo, Distinct;
    ClockToSpec(s, now);
  }

  lemma NextTimerKeeps(s: Sched)
    requires Ok(s) && ClockOk(s)
    ensures var s' := AdvanceToNextTimer(s).0; Ok(s') && ClockOk(s') && s.now <= s'.now
  {
    hide ClockTo, Distinct, Earliest;
    EarliestSpec(s.stalled);
    if Earliest(s.stalled).Some? {
      var d := Earliest(s.stalled).value;
      ClockToKeeps(s, if s.now >= d then s.now else d);
    }
  }

  lemma ApplyKeeps(s: Sched, op: Op)
    requires Ok(s) && ClockOk(s) && Allowed(s, op)
    ensures Ok(Apply(s, op)) && ClockOk(Apply(s, op)) && s.now <= Apply(s, op).now
  {
    hide Ok, Retain, Distinct, ClockTo, Earliest, AdvanceToNextTimer;
    match op {
      case Signal(l) => SignalKeeps(s, l);
      case Wait(l, r) => RegisterKeeps(s, l, r);
      case Complete(l) => CompleteKeeps(s, l);
      case Advance(delta) => ClockToKeeps(s, if s.now + delta > CLOCK_MAX then CLOCK_MAX else s.now + delta);
      case NextTimer => NextTimerKeeps(s);
      case Dispatch(chosen) => DispatchSplits(s, chosen);
    }
  }

  /** Over every run no lane is ready twice or ready and stalled, and the clock never
      goes back. */
  lemma {:induction false} RunKeeps(s: Sched, ops: seq<Op>)
    requires Ok(s) && ClockOk(s)
    ensures Ok(Run(s, ops)) && ClockOk(Run(s, ops)) && s.now <= Run(s, ops).now
    decreases |ops|
  {
    hide Ok, ClockOk, Allowed, Apply;
    if ops != [] {
      var t := Run(s, ops[..|ops| - 1]);
      RunKeeps(s, ops[..|ops| - 1]);
      if Allowed(t, ops[|ops| - 1]) {
        ApplyKeeps(t, ops[|ops| - 1]);
      }
    }
  }
}
