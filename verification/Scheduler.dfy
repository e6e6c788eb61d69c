/** The scheduler object (cibos-kernel/src/scheduler.rs): its methods update the lists in
    place and are proved to do what `Scheduling` says. */
module Scheduler {
  import opened Entropy
  import opened Selector
  import opened Scheduling
  import opened Waiting
  import opened Options
  import opened Sequences

  datatype WeightClass = System | User | Background

  datatype Profile = MaximumIsolation | Balanced | Performance | Compute

  datatype Config = Config(systemWeight: nat, userWeight: nat, backgroundWeight: nat)

  function DefaultsFor(p: Profile): Config {
    match p
    case MaximumIsolation => Config(1, 1, 1)
    case Balanced => Config(3, 1, 1)
    case Performance => Config(5, 2, 1)
    case Compute => Config(1, 1, 1)
  }

  method RetainLanes(s: seq<Lane>, drop: set<Lane>) returns (r: seq<Lane>)
    ensures r == Retain(s, drop)
  {
    r := [];
    var i := 0;
    while i < |s|
      invariant i <= |s| && r == Retain(s[..i], drop)
    {
      assert s[..i + 1][..i] == s[..i];
      if s[i] !in drop {
        r := r + [s[i]];
      }
      i := i + 1;
    }
    assert s[..i] == s;
  }

  class Kernel {
    var ready: seq<Lane>
    var stalled: map<Lane, Resource>
    var classes: map<Lane, WeightClass>
    var overrides: map<Lane, nat>
    var now: nat
    const rng: Csprng
    const contexts: nat
    const profile: Profile

    ghost function State(): Sched
      reads this
    {
      Sched(ready, stalled, now)
    }

    ghost predicate Valid()
      reads this, rng
    {
      && Ok(State()) && ClockOk(State()) && contexts >= 1
      && (forall l :: l in overrides ==> overrides[l] <= U32_MAX)
      && rng.Valid() && Productive(rng.hash, rng.key)
    }

    constructor (contexts: nat, rng: Csprng, profile: Profile)
      requires rng.Valid() && Productive(rng.hash, rng.key)
      ensures Valid() && State() == Sched([], map[], 0) && this.rng == rng && this.profile == profile
      ensures this.contexts == (if contexts < 1 then 1 else contexts) && classes == map[] && overrides == map[]
    {
      this.contexts := if contexts < 1 then 1 else contexts;
      this.rng, this.profile := rng, profile;
      ready, stalled, classes, overrides, now := [], map[], map[], map[], 0;
    }

    /** `lane` may run. */
    predicate IsReady(lane: Lane)
      reads this
    {
      lane in ready && lane !in stalled
    }

    /** `lane` was registered with weight class `c`; unregistered lanes count as user lanes. */
    predicate HasClass(lane: Lane, c: WeightClass)
      reads this
    {
      if lane in classes then classes[lane] == c else c == User
    }

    method RegisterLane(lane: Lane, c: WeightClass)
      requires Valid()
      modifies this`classes
      ensures Valid() && HasClass(lane, c)
      ensures forall l: Lane, d: WeightClass :: l != lane ==> (HasClass(l, d) <==> old(HasClass(l, d)))
    {
      classes := classes[lane := c];
    }

    /** A lane's weight: its override where the profile allows one, else by class. */
    function WeightFor(lane: Lane): (w: nat)
      requires forall l :: l in overrides ==> overrides[l] <= U32_MAX
      reads this
      ensures 1 <= w <= U32_MAX
      ensures profile == MaximumIsolation ==> w == 1
      ensures profile == Balanced ==> w == if HasClass(lane, System) then 3 else 1
      ensures profile == Performance ==>
                w == if HasClass(lane, System) then 5 else if HasClass(lane, User) then 2 else 1
      ensures profile == Compute ==>
                w == if lane in overrides && overrides[lane] > 0 then overrides[lane] else 1
    {
      var config := DefaultsFor(profile);
      if profile == Compute && lane in overrides then (if overrides[lane] < 1 then 1 else overrides[lane])
      else match (if lane in classes then classes[lane] else User)
           case System => config.systemWeight
           case User => config.userWeight
           case Background => config.backgroundWeight
    }

    method SetLaneWeight(lane: Lane, weight: nat) returns (applied: bool)
      requires Valid() && weight <= U32_MAX
      modifies this`overrides
      ensures Valid() && (applied <==> profile == Compute)
      ensures overrides == if applied then old(overrides)[lane := if weight < 1 then 1 else weight] else old(overrides)
    {
      if profile != Compute {
        return false;
      }
      overrides := overrides[lane := if weight < 1 then 1 else weight];
      return true;
    }

    method RegisterWait(lane: Lane, r: Resource)
      requires Valid() && (r.Timer? ==> r.deadline <= CLOCK_MAX)
      modifies this`ready, this`stalled
      ensures Valid() && State() == Scheduling.RegisterWait(old(State()), lane, r)
      ensures WaitsFor(stalled, lane) == Some(r) && OthersWait(old(stalled), stalled, lane)
      ensures Without(old(ready), lane, ready)
    {
      hide Ok, Retain, Productive, Distinct, Without, OthersWait;
      RegisterExactly(State(), lane, r);
      RegisterKeeps(State(), lane, r);
      ready := RetainLanes(ready, {lane});
      stalled := stalled[lane := r];
    }

    method SignalReady(lane: Lane)
      requires Valid()
      modifies this`ready, this`stalled
      ensures Valid() && State() == Scheduling.SignalReady(old(State()), lane)
    {
      hide Ok, Productive, Distinct;
      SignalKeeps(State(), lane);
      stalled := stalled - {lane};
      if lane !in ready {
        ready := ready + [lane];
      }
    }

    method NotifyComplete(lane: Lane)
      requires Valid()
      modifies this`ready, this`stalled, this`classes, this`overrides
      ensures Valid() && State() == Scheduling.NotifyComplete(old(State()), lane)
      ensures WaitsFor(stalled, lane) == None && OthersWait(old(stalled), stalled, lane)
      ensures Without(old(ready), lane, ready)
      ensures classes == old(classes) - {lane} && overrides == old(overrides) - {lane}
    {
      hide Ok, Retain, Productive, Distinct, Without, OthersWait;
      CompleteExactly(State(), lane);
      CompleteKeeps(State(), lane);
      ready := RetainLanes(ready, {lane});
      stalled := stalled - {lane};
      classes := classes - {lane};
      overrides := overrides - {lane};
    }

    /** The ready lanes with their weights. */
    method Weigh() returns (weighted: seq<Weighted>)
      requires Valid()
      ensures |weighted| == |ready| && Lanes(weighted) == ready
      ensures forall i :: 0 <= i < |ready| ==> weighted[i] == Weighted(ready[i], WeightFor(ready[i]))
    {
      weighted := [];
      while |weighted| < |ready|
        invariant |weighted| <= |ready|
        invariant forall i :: 0 <= i < |weighted| ==> weighted[i] == Weighted(ready[i], WeightFor(ready[i]))
      {
        weighted := weighted + [Weighted(ready[|weighted|], WeightFor(ready[|weighted|]))];
      }
    }

    /** Choose the lanes to run and take them off the ready list: as many as there are
        contexts, or all, each once; batch and remainder are what was ready. */
    method TakeDispatchBatch()
      returns (chosen: seq<Lane>, ghost weighted: seq<Weighted>, ghost tickets: seq<nat>, ghost at: seq<nat>)
      requires Valid() && |ready| <= U32_MAX
      modifies this`ready, rng
      ensures Valid() && State() == TakeBatch(old(State()), chosen)
      ensures |chosen| == if |old(ready)| <= contexts then |old(ready)| else contexts
      ensures Distinct(chosen) && multiset(old(ready)) == multiset(chosen) + multiset(ready)
      ensures |weighted| == |old(ready)| && forall i :: 0 <= i < |weighted| ==>
                weighted[i] == Weighted(old(ready)[i], old(WeightFor(ready[i])))
      ensures |old(ready)| <= contexts ==> chosen == old(ready)
      ensures |old(ready)| > contexts ==>
                && chosen == Draws(Pool(weighted), tickets)
                && FromStream(rng.hash, rng.key, Pool(weighted), tickets, at)
                && at[0] == old(rng.Pos())
    {
      hide Ok, ClockOk, Retain, Productive, Legal, Draws, Pool, FromStream, Distinct;
      var entries := Weigh();
      weighted := entries;
      chosen, tickets, at := Select(entries, contexts, rng);
      BatchIsReady(State(), weighted, chosen);
      ready := RetainLanes(ready, set l | l in chosen);
    }

    /** Ready the lanes whose timers have matured, in lane order. */
    method ReleaseMatured()
      requires Valid()
      modifies this`ready, this`stalled
      ensures Valid() && State() == ClockTo(old(State()), now)
    {
      hide Ok, Productive, MaturedLanes, Distinct, ClockOk, Release;
      ClockInRange(State());
      var matured := CollectMatured(stalled, now);
      ClockToKeeps(State(), now);
      ReleaseNone(State(), matured);
      var k := 0;
      while k < |matured|
        invariant k <= |matured| && State() == Release(old(State()), matured, k)
      {
        ReleaseNext(old(State()), matured, k);
        stalled := stalled - {matured[k]};
        if matured[k] !in ready {
          ready := ready + [matured[k]];
        }
        k := k + 1;
      }
    }

    method AdvanceClock(delta: nat)
      requires Valid()
      modifies this`ready, this`stalled, this`now
      ensures Valid() && State() == Scheduling.AdvanceClock(old(State()), delta)
    {
      hide Ok, Productive, ClockTo;
      var later := if now + delta > CLOCK_MAX then CLOCK_MAX else now + delta;
      ClockMoved(State(), later);
      now := later;
      ReleaseMatured();
    }

    method AdvanceToNextTimer() returns (found: bool)
      requires Valid()
      modifies this`ready, this`stalled, this`now
      ensures Valid() && (State(), found) == Scheduling.AdvanceToNextTimer(old(State()))
    {
      hide Ok, Productive, ClockTo, Earliest;
      var earliest := FindEarliest(stalled);
      EarliestSpec(stalled);
      match earliest {
        case None => return false;
        case Some(d) =>
          ClockMoved(State(), if now >= d then now else d);
          if now < d {
            now := d;
          }
          ReleaseMatured();
          return true;
      }
    }
  }

  lemma BatchIsReady(s: Sched, weighted: seq<Weighted>, chosen: seq<Lane>)
    requires Ok(s) && ClockOk(s) && Lanes(weighted) == s.ready && multiset(chosen) <= multiset(s.ready)
    ensures var s' := TakeBatch(s, chosen);
            && Distinct(chosen) && Ok(s') && ClockOk(s')
            && multiset(s.ready) == multiset(chosen) + multiset(s'.ready)
  {
    hide Retain;
    DrawsDistinct(weighted, chosen);
    DispatchSplits(s, chosen);
  }

  lemma ClockMoved(s: Sched, now: nat)
    requires Ok(s)
    ensures Ok(s.(now := now)) && ClockTo(s.(now := now), now) == ClockTo(s, now)
  {
    hide MaturedLanes, Release;
  }

  lemma ClockInRange(s: Sched)
    requires ClockOk(s)
    ensures s.now <= CLOCK_MAX
  {
  }

  lemma ReleaseNone(s: Sched, lanes: seq<Lane>)
    ensures Release(s, lanes, 0) == s
  {
  }

  lemma ReleaseNext(s: Sched, lanes: seq<Lane>, k: nat)
    requires k < |lanes|
    ensures Release(s, lanes, k + 1) == SignalReady(Release(s, lanes, k), lanes[k])
  {
  }

  lemma MaturedNone(stalled: map<Lane, Resource>, keys: seq<Lane>, now: nat)
    requires forall i :: 0 <= i < |keys| ==> keys[i] in stalled
    ensures MaturedUpTo(stalled, keys, now, 0) == []
  {
  }

  lemma MaturedNext(stalled: map<Lane, Resource>, keys: seq<Lane>, now: nat, k: nat)
    requires k < |keys| && forall i :: 0 <= i < |keys| ==> keys[i] in stalled
    ensures MaturedUpTo(stalled, keys, now, k + 1) ==
            MaturedUpTo(stalled, keys, now, k) + if Matured(stalled[keys[k]], now) then [keys[k]] else []
  {
  }

  method CollectMatured(stalled: map<Lane, Resource>, now: nat) returns (matured: seq<Lane>)
    ensures matured == MaturedLanes(stalled, now)
  {
    hide Ascending, Matured, MaturedUpTo;
    MaturedNone(stalled, Ascending(stalled.Keys), now);
    var keys := Ascending(stalled.Keys);
    matured := [];
    var k := 0;
    while k < |keys|
      invariant k <= |keys| && matured == MaturedUpTo(stalled, keys, now, k)
    {
      MaturedNext(stalled, keys, now, k);
      if Matured(stalled[keys[k]], now) {
        matured := matured + [keys[k]];
      }
      k := k + 1;
    }
  }

  method FindEarliest(stalled: map<Lane, Resource>) returns (earliest: Option<nat>)
    ensures earliest == Earliest(stalled)
  {
    hide Ascending;
    var keys := Ascending(stalled.Keys);
    var k := 0;
    earliest := None;
    while k < |keys|
      invariant k <= |keys| && earliest == EarliestUpTo(stalled, keys, k)
    {
      match stalled[keys[k]] {
        case Timer(d) =>
          if earliest.None? || d < earliest.value {
            earliest := Some(d);
          }
        case _ =>
      }
      k := k + 1;
    }
  }
}
