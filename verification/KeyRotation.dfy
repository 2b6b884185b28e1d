/** What rotation guarantees, and what every sequence of ring operations keeps. */
module KeyRotation {
  import opened KeyRings

  // ----- Current and Rotate

  /** After a rotation with some key enabled, the position itself holds an enabled key, so
      it is what Current returns. */
  lemma RotateLandsOnCurrent(r: Ring)
    requires WellFormed(r) && !AllDisabled(r.keys)
    ensures var next := Rotated(r);
            WellFormed(next) && !next.keys[next.current].disabled && IsCurrent(next, next.current)
  {
    var next := Rotated(r);
    var d := Distance(r.keys, r.current, 1);
    if d == |r.keys| {
      NoneAheadButHere(r.keys, r.current);
    }
    assert FirstEnabledAhead(next.keys, next.current, 0);
  }

  /** If no key strictly ahead is enabled, the one at the position is the only candidate. */
  lemma NoneAheadButHere(keys: seq<KeyValue>, current: int)
    requires 0 <= current < |keys| && !AllDisabled(keys)
    requires Distance(keys, current, 1) == |keys|
    ensures !keys[current].disabled
  {
    if keys[current].disabled {
      assert forall e: nat :: e < |keys| ==> !EnabledAhead(keys, current, e);
      NoneAhead(keys, current);
      assert false;
    }
  }

  /** Current is a function of the ring. */
  lemma CurrentIsUnique(r: Ring, a: int, b: int)
    requires WellFormed(r) && IsCurrent(r, a) && IsCurrent(r, b)
    ensures a == b
  {
    var d: nat :| d < |r.keys| && FirstEnabledAhead(r.keys, r.current, d) && a == Wrap(|r.keys|, r.current + d);
    var e: nat :| e < |r.keys| && FirstEnabledAhead(r.keys, r.current, e) && b == Wrap(|r.keys|, r.current + e);
    assert !(d < e) && !(e < d);
  }

  /** Rotating away from a disabled key does not change what Current returns. */
  lemma RotateFromDisabled(r: Ring, index: int)
    requires WellFormed(r) && r.keys != [] && r.keys[r.current].disabled
    ensures WellFormed(Rotated(r))
    ensures IsCurrent(r, index) <==> IsCurrent(Rotated(r), index)
  {
    if AllDisabled(r.keys) {
      assert !IsCurrent(r, index) && !IsCurrent(Rotated(r), index);
    } else {
      RotateLandsOnCurrent(r);
      var d := Distance(r.keys, r.current, 1);
      assert FirstEnabledAhead(r.keys, r.current, d);
      assert IsCurrent(r, Rotated(r).current);
      if IsCurrent(r, index) {
        CurrentIsUnique(r, index, Rotated(r).current);
      }
      if IsCurrent(Rotated(r), index) {
        CurrentIsUnique(Rotated(r), index, Rotated(r).current);
      }
    }
  }

  // ----- round robin

  function EnabledPositions(keys: seq<KeyValue>): set<int> {
    set p | 0 <= p < |keys| && !keys[p].disabled
  }

  /** The ring after `k` rotations. */
  function RotatedBy(r: Ring, k: nat): (s: Ring)
    requires WellFormed(r)
    ensures WellFormed(s) && s.keys == r.keys
  {
    if k == 0 then r else Rotated(RotatedBy(r, k - 1))
  }

  /** How far ahead of `start` the position `p` lies, the start itself a full turn. */
  function Ahead(n: nat, start: int, p: int): int {
    if p > start then p - start else p - start + n
  }

  /** Where the ring is, counted from its start, after `k` rotations. */
  function Turned(r: Ring, k: nat): int
    requires WellFormed(r)
  {
    if k == 0 then 0 else Ahead(|r.keys|, r.current, RotatedBy(r, k).current)
  }

  function EnabledUpTo(r: Ring, limit: int): set<int> {
    set p | 0 <= p < |r.keys| && !r.keys[p].disabled && Ahead(|r.keys|, r.current, p) <= limit
  }

  /** While some enabled key lies further on, one rotation moves to the next such key. */
  lemma OneRotation(r: Ring, k: nat, further: int)
    requires WellFormed(r) && r.keys != []
    requires 0 <= further < |r.keys| && !r.keys[further].disabled
    requires 0 <= Turned(r, k) < Ahead(|r.keys|, r.current, further)
    ensures Turned(r, k) < Turned(r, k + 1) <= |r.keys|
    ensures !r.keys[RotatedBy(r, k + 1).current].disabled
    ensures EnabledUpTo(r, Turned(r, k + 1)) == EnabledUpTo(r, Turned(r, k)) + {RotatedBy(r, k + 1).current}
  {
    var n, here := |r.keys|, RotatedBy(r, k).current;
    var d := Distance(r.keys, here, 1);
    var gap := Ahead(n, r.current, further) - Turned(r, k);
    assert Wrap(n, here + gap) == further;
    assert EnabledAhead(r.keys, here, gap);
    assert d <= gap;
    assert Turned(r, k + 1) == Turned(r, k) + d;
    forall p | 0 <= p < n && !r.keys[p].disabled && Turned(r, k) < Ahead(n, r.current, p) <= Turned(r, k + 1)
      ensures p == RotatedBy(r, k + 1).current
    {
      var e := Ahead(n, r.current, p) - Turned(r, k);
      assert Wrap(n, here + e) == p;
      assert EnabledAhead(r.keys, here, e);
    }
  }

  /** The positions that the first `k` rotations land on. */
  function Visited(r: Ring, k: nat): set<int>
    requires WellFormed(r)
  {
    set i: nat | 1 <= i <= k :: RotatedBy(r, i).current
  }

  lemma VisitedNext(r: Ring, k: nat)
    requires WellFormed(r)
    ensures Visited(r, k + 1) == Visited(r, k) + {RotatedBy(r, k + 1).current}
  {
  }

  lemma SomeoneLeft<T>(all: set<T>, seen: set<T>) returns (x: T)
    requires |seen| < |all| && seen <= all
    ensures x in all && x !in seen
  {
    assert all == seen + (all - seen);
    x :| x in all - seen;
  }

  /** The first `k` landings are `k` different enabled keys: the ones nearest ahead. */
  ghost predicate LandedOn(r: Ring, k: nat)
    requires WellFormed(r)
  {
    && 0 <= Turned(r, k) <= |r.keys|
    && |EnabledUpTo(r, Turned(r, k))| == k
    && EnabledUpTo(r, Turned(r, k)) == Visited(r, k)
    && forall i :: 0 <= i < k ==> Turned(r, i) < Turned(r, k)
  }

  lemma NextLanding(r: Ring, k: nat)
    requires WellFormed(r) && r.keys != [] && LandedOn(r, k)
    requires k < |EnabledPositions(r.keys)|
    ensures LandedOn(r, k + 1)
  {
    var before, here := EnabledUpTo(r, Turned(r, k)), RotatedBy(r, k + 1).current;
    var further := SomeoneLeft(EnabledPositions(r.keys), before);
    OneRotation(r, k, further);
    NotSeenBefore(r, k, here);
    VisitedNext(r, k);
    OneMore(before, here);
    forall i | 0 <= i < k + 1
      ensures Turned(r, i) < Turned(r, k + 1)
    {
      assert i == k || Turned(r, i) < Turned(r, k);
    }
  }

  lemma NotSeenBefore(r: Ring, k: nat, here: int)
    requires WellFormed(r) && r.keys != []
    requires here == RotatedBy(r, k + 1).current && Turned(r, k) < Turned(r, k + 1)
    ensures here !in EnabledUpTo(r, Turned(r, k))
  {
    assert Ahead(|r.keys|, r.current, here) == Turned(r, k + 1);
  }

  lemma OneMore<T>(s: set<T>, x: T)
    requires x !in s
    ensures |s + {x}| == |s| + 1
  {
  }

  lemma {:induction false} Landings(r: Ring, k: nat)
    requires WellFormed(r) && r.keys != []
    requires k <= |EnabledPositions(r.keys)|
    ensures LandedOn(r, k)
    decreases k
  {
    if k == 0 {
      assert EnabledUpTo(r, 0) == {};
    } else {
      Landings(r, k - 1);
      NextLanding(r, k - 1);
    }
  }

  /** With m keys enabled, m consecutive rotations visit each of them exactly once, whatever
      the position they start from, even a disabled one. */
  lemma RoundRobinFair(r: Ring)
    requires WellFormed(r) && r.keys != []
    ensures var m := |EnabledPositions(r.keys)|;
            && Visited(r, m) == EnabledPositions(r.keys)
            && forall i, j :: 1 <= i < j <= m ==> RotatedBy(r, i).current != RotatedBy(r, j).current
  {
    var m := |EnabledPositions(r.keys)|;
    Landings(r, m);
    var visited := EnabledUpTo(r, Turned(r, m));
    assert EnabledPositions(r.keys) == visited + (EnabledPositions(r.keys) - visited);
    forall i, j | 1 <= i < j <= m
      ensures RotatedBy(r, i).current != RotatedBy(r, j).current
    {
      Landings(r, j);
      assert Turned(r, i) < Turned(r, j);
    }
  }

  // ----- disabling and enabling

  /** The same key but for its flag and its error count. */
  predicate SameKey(k: KeyValue, other: KeyValue) {
    k == other.(disabled := k.disabled, errorCount := k.errorCount)
  }

  ghost predicate OthersUnchanged(r: Ring, after: Ring, i: int) {
    && after.current == r.current && |after.keys| == |r.keys|
    && (forall j :: 0 <= j < |r.keys| && j != i ==> after.keys[j] == r.keys[j])
    && (0 <= i < |r.keys| ==> SameKey(after.keys[i], r.keys[i]))
  }

  /** Disabling takes exactly the first key with the ID out of the enabled ones, and changes
      nothing else about any key. */
  lemma DisableTakesOut(r: Ring, id: string)
    requires WellFormed(r)
    ensures var i, after := IndexOf(r.keys, id), Disabled(r, id);
            && EnabledPositions(after.keys) == EnabledPositions(r.keys) - {i}
            && OthersUnchanged(r, after, i)
            && (i < |r.keys| ==> after.keys[i].errorCount == r.keys[i].errorCount)
  {
  }

  /** Enabling puts it in, with its error count cleared. */
  lemma EnablePutsIn(r: Ring, id: string)
    requires WellFormed(r)
    ensures var i, after := IndexOf(r.keys, id), Enabled(r, id);
            && EnabledPositions(after.keys) == EnabledPositions(r.keys) + (if i < |r.keys| then {i} else {})
            && OthersUnchanged(r, after, i)
            && (i < |r.keys| ==> after.keys[i].errorCount == 0)
  {
  }

  /** A disabled key is not handed out: Current returns a key with another ID, and nothing
      when no other key is enabled. */
  lemma DisabledIsNotCurrent(r: Ring, id: string, k: int)
    requires WellFormed(r) && DistinctIDs(r) && IndexOf(r.keys, id) < |r.keys|
    ensures var i := IndexOf(r.keys, id);
            EnabledPositions(r.keys) <= {i} ==> AllDisabled(Disabled(r, id).keys)
    ensures IsCurrent(Disabled(r, id), k) ==> 0 <= k < |r.keys| && r.keys[k].id != id
  {
    var i, after := IndexOf(r.keys, id), Disabled(r, id);
    DisableTakesOut(r, id);
    forall p | 0 <= p < |after.keys| && EnabledPositions(r.keys) <= {i}
      ensures after.keys[p].disabled
    {
      assert p !in EnabledPositions(after.keys);
    }
    if IsCurrent(after, k) {
      var d: nat :| d < |after.keys| && FirstEnabledAhead(after.keys, after.current, d)
                    && k == Wrap(|after.keys|, after.current + d);
      assert k in EnabledPositions(after.keys);
    }
  }

  /** An added key is enabled and keeps its credentials; what was in the ring stays. */
  lemma AddedKey(r: Ring, k: KeyValue)
    requires WellFormed(r) && IndexOf(r.keys, k.id) == |r.keys|
    ensures var after := WithKey(r, k);
            && after.current == r.current && |after.keys| == |r.keys| + 1 && after.keys[..|r.keys|] == r.keys
            && EnabledPositions(after.keys) == EnabledPositions(r.keys) + {|r.keys|}
            && var added := after.keys[|r.keys|];
               && added.id == k.id && added.key == k.key && added.secret == k.secret
               && added.passphrase == k.passphrase && added.lastUsed == 0 && added.errorCount == 0
  {
  }

  /** Removing cuts out exactly the first key with the ID and keeps the order of the others. */
  lemma RemovedKey(r: Ring, id: string)
    requires WellFormed(r)
    ensures var i, after := IndexOf(r.keys, id), WithoutKey(r, id);
            if i == |r.keys| then after == r
            else
              && |after.keys| == |r.keys| - 1
              && (forall k :: 0 <= k < |after.keys| ==> after.keys[k] == r.keys[if k < i then k else k + 1])
              && after.current == if r.current == |r.keys| - 1 > 0 then 0 else r.current
  {
  }

  // ----- every sequence of operations

  datatype RingOp =
    | DoRotate
    | DoAdd(key: KeyValue)
    | DoRemove(id: string)
    | DoEnable(id: string)
    | DoDisable(id: string)

  function Apply(r: Ring, op: RingOp): Ring
    requires WellFormed(r)
  {
    match op
    case DoRotate => Rotated(r)
    case DoAdd(key) => WithKey(r, key)
    case DoRemove(id) => WithoutKey(r, id)
    case DoEnable(id) => Enabled(r, id)
    case DoDisable(id) => Disabled(r, id)
  }

  lemma StepKeepsRing(r: Ring, op: RingOp)
    requires WellFormed(r)
    ensures WellFormed(Apply(r, op))
    ensures DistinctIDs(r) ==> DistinctIDs(Apply(r, op))
  {
  }

  function ApplyAll(r: Ring, ops: seq<RingOp>): (s: Ring)
    requires WellFormed(r)
    ensures WellFormed(s)
  {
    if ops == [] then r
    else
      var before := ApplyAll(r, ops[..|ops| - 1]);
      StepKeepsRing(before, ops[|ops| - 1]);
      Apply(before, ops[|ops| - 1])
  }

  /** Every run keeps the position inside the ring and IDs distinct. */
  lemma {:induction false} RunsKeepRing(r: Ring, ops: seq<RingOp>)
    requires WellFormed(r) && DistinctIDs(r)
    ensures WellFormed(ApplyAll(r, ops)) && DistinctIDs(ApplyAll(r, ops))
    decreases |ops|
  {
    if ops != [] {
      RunsKeepRing(r, ops[..|ops| - 1]);
      StepKeepsRing(ApplyAll(r, ops[..|ops| - 1]), ops[|ops| - 1]);
    }
  }

  /** Removing a key from in front of the position shifts the ring under it: the key at the
      position stays the same exactly when the removed one lies behind it, or is the other
      one of two and the position falls back to the start. */
  lemma RemoveKeepsKeyAtPositionIff(r: Ring, id: string)
    requires WellFormed(r) && DistinctIDs(r) && |r.keys| > 1
    requires IndexOf(r.keys, id) < |r.keys|
    ensures var i, after := IndexOf(r.keys, id), WithoutKey(r, id);
            && WellFormed(after) && after.keys != []
            && (after.keys[after.current].id == r.keys[r.current].id <==>
                  i > r.current || (|r.keys| == 2 && i == 0 && r.current == 1))
  {
    var i, after := IndexOf(r.keys, id), WithoutKey(r, id);
    assert forall k :: 0 <= k < |after.keys| ==> after.keys[k] == r.keys[if k < i then k else k + 1];
  }
}
