/**
  The describe-instances response as the watcher sees it: a sequence of
  reservations, each a sequence of instances, each an id with the raw name of
  its state. The functions here are the specification the scan loop is proved
  against: the flattened discovery order, the stopped count and the in-order
  list of stopped ids.
 */
module Instances {

  /** An instance as the scan reads it: `InstanceId` and `State.Name`. */
  datatype Instance = Instance(id: string, state: string)

  /** One entry of `Reservations`: the instances it holds, in response order. */
  type Reservation = seq<Instance>

  /** The only state name the watcher alerts on. */
  const StoppedState: string := "stopped"

  /** The exact string comparison of the scan: only the name "stopped"
      matches, and no other lifecycle state (not even "stopping") does. */
  predicate IsStopped(inst: Instance): (r: bool)
    ensures r ==> inst.state == StoppedState
    ensures inst.state in {"pending", "running", "stopping", "shutting-down", "terminated"} ==> !r
  {
    inst.state == StoppedState
  }

  /** All instances in discovery order: reservation by reservation, then
      instance by instance within each. */
  function Flatten(rs: seq<Reservation>): seq<Instance> {
    if rs == [] then [] else Flatten(rs[..|rs| - 1]) + rs[|rs| - 1]
  }

  /** Sum of the reservation sizes, an independent count of the instances. */
  function SumSizes(rs: seq<Reservation>): nat {
    if rs == [] then 0 else |rs[0]| + SumSizes(rs[1..])
  }

  /** Number of instances whose state is exactly "stopped". */
  function CountStopped(s: seq<Instance>): (r: nat)
    ensures r <= |s|
  {
    if s == [] then 0
    else CountStopped(s[..|s| - 1]) + (if IsStopped(s[|s| - 1]) then 1 else 0)
  }

  /** Ids of the stopped instances, in discovery order. */
  function StoppedIds(s: seq<Instance>): (r: seq<string>)
    ensures |r| == CountStopped(s)
  {
    if s == [] then []
    else StoppedIds(s[..|s| - 1]) + (if IsStopped(s[|s| - 1]) then [s[|s| - 1].id] else [])
  }

  /** Positions in `s` of the stopped instances, in increasing order. */
  function StoppedPositions(s: seq<Instance>): seq<nat> {
    if s == [] then []
    else StoppedPositions(s[..|s| - 1]) + (if IsStopped(s[|s| - 1]) then [|s| - 1] else [])
  }

  /** Flattening one more reservation appends its instances. */
  lemma FlattenSnoc(rs: seq<Reservation>, r: Reservation)
    ensures Flatten(rs + [r]) == Flatten(rs) + r
  {
    assert (rs + [r])[..|rs|] == rs;
  }

  lemma {:induction false} SumSizesSnoc(rs: seq<Reservation>, r: Reservation)
    ensures SumSizes(rs + [r]) == SumSizes(rs) + |r|
  {
    if rs != [] {
      assert (rs + [r])[1..] == rs[1..] + [r];
      SumSizesSnoc(rs[1..], r);
    }
  }

  /** The flattened list holds exactly as many instances as all reservations
      together. */
  lemma {:induction false} FlattenLength(rs: seq<Reservation>)
    ensures |Flatten(rs)| == SumSizes(rs)
  {
    if rs != [] {
      var init := rs[..|rs| - 1];
      FlattenLength(init);
      SumSizesSnoc(init, rs[|rs| - 1]);
      assert init + [rs[|rs| - 1]] == rs;
    }
  }

  /** An instance is in the flattened list exactly when some reservation
      holds it. */
  lemma {:induction false} FlattenMember(rs: seq<Reservation>, inst: Instance)
    ensures inst in Flatten(rs) <==> exists j :: 0 <= j < |rs| && inst in rs[j]
  {
    if rs != [] {
      var init := rs[..|rs| - 1];
      FlattenMember(init, inst);
      if inst in rs[|rs| - 1] {
        assert inst in Flatten(rs);
      }
      if exists j :: 0 <= j < |rs| && inst in rs[j] {
        var j :| 0 <= j < |rs| && inst in rs[j];
        if j < |rs| - 1 {
          assert inst in init[j];
        }
      }
    }
  }

  lemma CountStoppedSnoc(s: seq<Instance>, inst: Instance)
    ensures CountStopped(s + [inst]) == CountStopped(s) + (if IsStopped(inst) then 1 else 0)
    ensures StoppedIds(s + [inst]) == StoppedIds(s) + (if IsStopped(inst) then [inst.id] else [])
  {
    assert (s + [inst])[..|s|] == s;
  }

  /** Nothing is counted exactly when no instance is in state "stopped". */
  lemma {:induction false} CountStoppedZeroIff(s: seq<Instance>)
    ensures CountStopped(s) == 0 <==> forall i :: 0 <= i < |s| ==> !IsStopped(s[i])
  {
    if s != [] {
      var init := s[..|s| - 1];
      CountStoppedZeroIff(init);
      if CountStopped(s) == 0 {
        forall i | 0 <= i < |s| ensures !IsStopped(s[i]) {
          if i < |s| - 1 {
            assert s[i] == init[i];
          }
        }
      }
    }
  }

  /** Every instance is counted when every instance is stopped. */
  lemma {:induction false} CountStoppedAll(s: seq<Instance>)
    ensures CountStopped(s) == |s| <==> forall i :: 0 <= i < |s| ==> IsStopped(s[i])
  {
    if s != [] {
      var init := s[..|s| - 1];
      CountStoppedAll(init);
      if CountStopped(s) == |s| {
        forall i | 0 <= i < |s| ensures IsStopped(s[i]) {
          if i < |s| - 1 {
            assert s[i] == init[i];
          }
        }
      } else {
        assert !(forall i :: 0 <= i < |s| - 1 ==> IsStopped(init[i])) || !IsStopped(s[|s| - 1]);
      }
    }
  }

  /** Each stopped id is picked from a stopped instance at its position. */
  lemma {:induction false} StoppedPositionsPick(s: seq<Instance>)
    ensures var p := StoppedPositions(s);
      && |p| == |StoppedIds(s)|
      && forall k :: 0 <= k < |p| ==>
           p[k] < |s| && IsStopped(s[p[k]]) && StoppedIds(s)[k] == s[p[k]].id
  {
    if s != [] {
      var init := s[..|s| - 1];
      StoppedPositionsPick(init);
      var p0, p := StoppedPositions(init), StoppedPositions(s);
      var ids0, ids := StoppedIds(init), StoppedIds(s);
      forall k | 0 <= k < |p|
        ensures p[k] < |s| && IsStopped(s[p[k]]) && ids[k] == s[p[k]].id
      {
        if k < |p0| {
          assert p[k] == p0[k] && ids[k] == ids0[k] && s[p0[k]] == init[p0[k]];
        }
      }
    }
  }

  /** The positions are strictly increasing and below |s|. */
  lemma {:induction false} StoppedPositionsIncreasing(s: seq<Instance>)
    ensures forall k :: 0 <= k < |StoppedPositions(s)| ==> StoppedPositions(s)[k] < |s|
    ensures forall a, b :: 0 <= a < b < |StoppedPositions(s)| ==>
      StoppedPositions(s)[a] < StoppedPositions(s)[b]
  {
    if s != [] {
      var init := s[..|s| - 1];
      StoppedPositionsIncreasing(init);
      var p0, p := StoppedPositions(init), StoppedPositions(s);
      assert p == p0 + (if IsStopped(s[|s| - 1]) then [|s| - 1] else []);
      forall k | 0 <= k < |p| ensures p[k] < |s| {
        if k < |p0| {
          assert p[k] == p0[k];
        } else {
          assert p[k] == |s| - 1;
        }
      }
      forall a, b | 0 <= a < b < |p| ensures p[a] < p[b] {
        if b < |p0| {
          assert p[a] == p0[a] && p[b] == p0[b];
        } else {
          assert p[a] == p0[a] < |init| && p[b] == |s| - 1;
        }
      }
    }
  }

  /** Every position holding a stopped instance is among the positions. */
  lemma {:induction false} StoppedPositionsComplete(s: seq<Instance>)
    ensures forall i :: 0 <= i < |s| && IsStopped(s[i]) ==> i in StoppedPositions(s)
  {
    if s != [] {
      var init := s[..|s| - 1];
      StoppedPositionsComplete(init);
      forall i | 0 <= i < |s| && IsStopped(s[i]) ensures i in StoppedPositions(s) {
        if i < |s| - 1 {
          assert init[i] == s[i];
        }
      }
    }
  }

  /** The stopped ids are those of the stopped instances, one entry per
      stopped instance, none for any other, in discovery order: they are
      picked out of `s` at strictly increasing positions that hold stopped
      instances, and every stopped position is picked. */
  lemma StoppedIdsExact(s: seq<Instance>)
    ensures var p := StoppedPositions(s);
      && |p| == |StoppedIds(s)|
      && (forall k :: 0 <= k < |p| ==>
            p[k] < |s| && IsStopped(s[p[k]]) && StoppedIds(s)[k] == s[p[k]].id)
      && (forall a, b :: 0 <= a < b < |p| ==> p[a] < p[b])
      && (forall i :: 0 <= i < |s| && IsStopped(s[i]) ==> i in p)
  {
    StoppedPositionsPick(s);
    StoppedPositionsIncreasing(s);
    StoppedPositionsComplete(s);
  }

  /** The scenario of three instances: one running, two stopped. */
  lemma ThreeInstanceScenario()
    ensures var s := [Instance("i-1", "running"), Instance("i-2", "stopped"), Instance("i-3", "stopped")];
      |s| == 3 && CountStopped(s) == 2 && StoppedIds(s) == ["i-2", "i-3"]
  {
    var s := [Instance("i-1", "running"), Instance("i-2", "stopped"), Instance("i-3", "stopped")];
    assert s[..2][..1] == [Instance("i-1", "running")];
    assert s[..2] == [Instance("i-1", "running"), Instance("i-2", "stopped")];
  }
}
