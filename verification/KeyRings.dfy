/** The key ring: a slice of key objects and a position in it. */
module KeyRings {

  datatype KeyValue = KeyValue(
    id: string, key: string, secret: string, passphrase: string, disabled: bool, lastUsed: int, errorCount: int)

  datatype Ring = Ring(keys: seq<KeyValue>, current: int)

  /** The position is inside the slice, or 0 when the slice is empty. */
  predicate InRange(length: nat, current: int) {
    0 <= current && (current < length || length == current == 0)
  }

  predicate WellFormed(r: Ring) {
    InRange(|r.keys|, r.current)
  }

  predicate DistinctIDs(r: Ring) {
    forall i, j :: 0 <= i < j < |r.keys| ==> r.keys[i].id != r.keys[j].id
  }

  /** Position `p` of a ring of `n`, for a `p` at most one turn ahead. */
  function Wrap(n: nat, p: int): int {
    if p < n then p else p - n
  }

  lemma WrapIsRemainder(n: nat, p: int)
    requires 0 <= p < 2 * n
    ensures Wrap(n, p) == p % n
  {
    if p < n {
      assert p % n == p;
    } else {
      assert p == n + (p - n);
      assert (p - n) % n == p - n;
      assert p % n == (p - n) % n;
    }
  }

  lemma StepAhead(n: nat, start: nat, steps: nat)
    requires start < n && steps < n
    ensures (Wrap(n, start + steps) + 1) % n == Wrap(n, start + steps + 1) < n
    ensures Wrap(n, start + steps + 1) == start <==> steps + 1 == n
  {
    WrapIsRemainder(n, Wrap(n, start + steps) + 1);
  }

  /** Whether the key `d` places ahead of `current` may be used. */
  predicate EnabledAhead(keys: seq<KeyValue>, current: int, d: nat)
    requires 0 <= current < |keys| && d <= |keys|
  {
    !keys[Wrap(|keys|, current + d)].disabled
  }

  /** How far Rotate moves when the keys less than `d` ahead have been passed over: to the
      next enabled key, or all the way round. */
  function Distance(keys: seq<KeyValue>, current: int, d: nat): (steps: nat)
    requires 0 <= current < |keys| && 1 <= d <= |keys|
    ensures d <= steps <= |keys|
    ensures forall e :: d <= e < steps ==> !EnabledAhead(keys, current, e)
    ensures steps == |keys| || EnabledAhead(keys, current, steps)
    decreases |keys| - d
  {
    if d == |keys| || EnabledAhead(keys, current, d) then d else Distance(keys, current, d + 1)
  }

  /** One step of the search ends it, or leaves it with the same end. */
  lemma SearchStep(keys: seq<KeyValue>, start: int, steps: nat)
    requires 0 <= start < |keys| && steps < |keys|
    ensures var next := Wrap(|keys|, start + steps + 1);
            && (Wrap(|keys|, start + steps) + 1) % |keys| == next < |keys|
            && (next == start <==> steps + 1 == |keys|)
            && Distance(keys, start, steps + 1) ==
               if !keys[next].disabled || next == start then steps + 1 else Distance(keys, start, steps + 2)
  {
    StepAhead(|keys|, start, steps);
  }

  function Rotated(r: Ring): Ring
    requires WellFormed(r)
  {
    if r.keys == [] then r else r.(current := Wrap(|r.keys|, r.current + Distance(r.keys, r.current, 1)))
  }

  /** `index` is the position of the first enabled key at cyclic distance 0 to n - 1. */
  ghost predicate IsCurrent(r: Ring, index: int)
    requires WellFormed(r)
  {
    exists d: nat :: d < |r.keys| && FirstEnabledAhead(r.keys, r.current, d) && index == Wrap(|r.keys|, r.current + d)
  }

  ghost predicate FirstEnabledAhead(keys: seq<KeyValue>, current: int, d: nat)
    requires 0 <= current < |keys| && d < |keys|
  {
    EnabledAhead(keys, current, d) && forall e: nat :: e < d ==> !EnabledAhead(keys, current, e)
  }

  ghost predicate AllDisabled(keys: seq<KeyValue>) {
    forall i :: 0 <= i < |keys| ==> keys[i].disabled
  }

  /** The first position holding the ID, or the length. */
  function IndexOf(keys: seq<KeyValue>, id: string): (i: nat)
    ensures i <= |keys|
    ensures i < |keys| ==> keys[i].id == id
    ensures forall j :: 0 <= j < i ==> keys[j].id != id
  {
    if keys == [] || keys[0].id == id then 0 else IndexOf(keys[1..], id) + 1
  }

  function NewKey(k: KeyValue): KeyValue {
    KeyValue(k.id, k.key, k.secret, k.passphrase, false, 0, 0)
  }

  function WithKey(r: Ring, k: KeyValue): Ring {
    if IndexOf(r.keys, k.id) < |r.keys| then r else r.(keys := r.keys + [NewKey(k)])
  }

  function WithoutKey(r: Ring, id: string): Ring {
    var i := IndexOf(r.keys, id);
    if i == |r.keys| then r
    else
      var rest := r.keys[..i] + r.keys[i + 1..];
      Ring(rest, if r.current >= |rest| > 0 then 0 else r.current)
  }

  function Disabled(r: Ring, id: string): Ring {
    var i := IndexOf(r.keys, id);
    if i == |r.keys| then r else r.(keys := r.keys[i := r.keys[i].(disabled := true)])
  }

  function Enabled(r: Ring, id: string): Ring {
    var i := IndexOf(r.keys, id);
    if i == |r.keys| then r else r.(keys := r.keys[i := r.keys[i].(disabled := false, errorCount := 0)])
  }

  class APIKey {
    var id: string
    var key: string
    var secret: string
    var passphrase: string
    var disabled: bool
    var lastUsed: int
    var errorCount: int

    function Value(): KeyValue
      reads this
    {
      KeyValue(id, key, secret, passphrase, disabled, lastUsed, errorCount)
    }

    constructor (v: KeyValue)
      ensures Value() == v
      ensures id == v.id && key == v.key && secret == v.secret && passphrase == v.passphrase
      ensures disabled == v.disabled && lastUsed == v.lastUsed && errorCount == v.errorCount
    {
      id, key, secret, passphrase := v.id, v.key, v.secret, v.passphrase;
      disabled, lastUsed, errorCount := v.disabled, v.lastUsed, v.errorCount;
    }
  }

  /** Two objects hold the same credentials. */
  predicate SameCredentials(k: APIKey, other: APIKey)
    reads k, other
  {
    k.id == other.id && k.key == other.key && k.secret == other.secret && k.passphrase == other.passphrase
  }

  function ValuesOf(keys: seq<APIKey>): (values: seq<KeyValue>)
    reads keys
    ensures |values| == |keys|
    ensures forall i :: 0 <= i < |keys| ==> values[i] == keys[i].Value()
  {
    seq(|keys|, i requires 0 <= i < |keys| reads keys => keys[i].Value())
  }

  lemma ValuesWithout(keys: seq<APIKey>, i: nat)
    requires i < |keys|
    requires forall j, k :: 0 <= j < k < |keys| ==> keys[j] != keys[k]
    ensures ValuesOf(keys[..i] + keys[i + 1..]) == ValuesOf(keys)[..i] + ValuesOf(keys)[i + 1..]
    ensures var rest := keys[..i] + keys[i + 1..];
            forall j, k :: 0 <= j < k < |rest| ==> rest[j] != rest[k]
  {
  }

  class KeyRing {
    var keys: seq<APIKey>
    var current: int

    ghost predicate Distinct()
      reads this
    {
      forall i, j :: 0 <= i < j < |keys| ==> keys[i] != keys[j]
    }

    ghost predicate Valid()
      reads this
    {
      InRange(|keys|, current) && Distinct()
    }

    function View(): (r: Ring)
      reads this, keys
      ensures |r.keys| == |keys| && r.current == current
      ensures forall i :: 0 <= i < |keys| ==> r.keys[i] == keys[i].Value()
    {
      Ring(ValuesOf(keys), current)
    }

    /** The given keys are copied, so that the caller's objects are not shared. */
    constructor (given: seq<APIKey>)
      ensures Valid() && fresh(keys)
      ensures View().current == 0 && |View().keys| == |given|
      ensures forall i :: 0 <= i < |given| ==> View().keys[i] == given[i].Value()
      ensures forall i :: 0 <= i < |given| ==> SameCredentials(keys[i], given[i])
      ensures forall i :: 0 <= i < |given| ==> keys[i].disabled == given[i].disabled
    {
      current := 0;
      keys := [];
      new;
      for i := 0 to |given|
        invariant |keys| == i && current == 0 && fresh(keys)
        invariant forall j, k :: 0 <= j < k < |keys| ==> keys[j] != keys[k]
        invariant forall j :: 0 <= j < i ==> keys[j].Value() == given[j].Value()
        invariant forall j :: 0 <= j < i ==> SameCredentials(keys[j], given[j]) && keys[j].disabled == given[j].disabled
      {
        var copy := new APIKey(given[i].Value());
        keys := keys + [copy];
      }
    }

    method Current() returns (key: APIKey?)
      requires Valid()
      ensures key == null <==> AllDisabled(View().keys)
      ensures key != null ==> exists i :: 0 <= i < |keys| && key == keys[i] && IsCurrent(View(), i)
    {
      if |keys| == 0 {
        return null;
      }
      var i := 0;
      while i < |keys|
        invariant 0 <= i <= |keys|
        invariant forall e: nat :: e < i ==> !EnabledAhead(View().keys, current, e)
      {
        WrapIsRemainder(|keys|, current + i);
        var idx := (current + i) % |keys|;
        if !keys[idx].disabled {
          assert FirstEnabledAhead(View().keys, current, i);
          assert IsCurrent(View(), idx);
          return keys[idx];
        }
        i := i + 1;
      }
      NoneAhead(View().keys, current);
      return null;
    }

    method Rotate()
      requires Valid()
      modifies `current
      ensures Valid() && View() == Rotated(old(View()))
    {
      if |keys| == 0 {
        return;
      }
      var start := current;
      ghost var steps: nat, values := 0, ValuesOf(keys);
      while true
        invariant steps < |keys| && current == Wrap(|keys|, start + steps)
        invariant Distance(values, start, 1) == Distance(values, start, steps + 1)
        decreases |keys| - steps
      {
        SearchStep(values, start, steps);
        current := (current + 1) % |keys|;
        steps := steps + 1;
        if !keys[current].disabled {
          return;
        }
        if current == start {
          return;
        }
      }
    }

    method Add(key: APIKey)
      requires Valid()
      modifies `keys
      ensures Valid() && View() == WithKey(old(View()), key.Value())
      ensures keys == old(keys) || exists k: APIKey :: fresh(k) && keys == old(keys) + [k]
      ensures keys == old(keys) <==> exists i :: 0 <= i < |old(keys)| && old(keys)[i].id == key.id
      ensures keys != old(keys) ==>
                var added := keys[|keys| - 1];
                SameCredentials(added, key) && !added.disabled && added.lastUsed == 0 && added.errorCount == 0
    {
      var i := Find(key.id);
      if i < |keys| {
        return;
      }
      var added := new APIKey(NewKey(key.Value()));
      keys := keys + [added];
      assert View().keys == old(View()).keys + [NewKey(key.Value())];
    }

    method CutOut(i: nat)
      requires i < |keys| && Distinct()
      modifies `keys
      ensures Distinct() && ValuesOf(keys) == old(ValuesOf(keys)[..i] + ValuesOf(keys)[i + 1..])
    {
      ValuesWithout(keys, i);
      keys := keys[..i] + keys[i + 1..];
    }

    method Remove(id: string)
      requires Valid()
      modifies `keys, `current
      ensures Valid() && View() == WithoutKey(old(View()), id)
    {
      var i := Find(id);
      if i == |keys| {
        return;
      }
      ghost var before := View();
      CutOut(i);
      assert ValuesOf(keys) == WithoutKey(before, id).keys && current == before.current;
      if current >= |keys| && |keys| > 0 {
        current := 0;
      }
    }

    method Disable(id: string)
      requires Valid()
      modifies keys
      ensures Valid() && View() == Disabled(old(View()), id)
      ensures var i := IndexOf(old(View()).keys, id);
              forall j :: 0 <= j < |keys| ==> keys[j].disabled == (j == i || old(keys[j].disabled))
    {
      var i := Find(id);
      if i < |keys| {
        keys[i].disabled := true;
      }
      assert View().keys == Disabled(old(View()), id).keys;
    }

    method Enable(id: string)
      requires Valid()
      modifies keys
      ensures Valid() && View() == Enabled(old(View()), id)
      ensures var i := IndexOf(old(View()).keys, id);
              forall j :: 0 <= j < |keys| ==>
                && keys[j].disabled == (j != i && old(keys[j].disabled))
                && keys[j].errorCount == if j == i then 0 else old(keys[j].errorCount)
    {
      var i := Find(id);
      if i < |keys| {
        keys[i].disabled := false;
        keys[i].errorCount := 0;
      }
      assert View().keys == Enabled(old(View()), id).keys;
    }

    /** The search loop that Add, Remove, Disable and Enable start with. */
    method Find(id: string) returns (i: nat)
      ensures i == IndexOf(View().keys, id)
    {
      i := 0;
      while i < |keys| && keys[i].id != id
        invariant i <= |keys|
        invariant forall j :: 0 <= j < i ==> keys[j].id != id
      {
        i := i + 1;
      }
    }
  }

  /** Looking one full turn ahead sees every key. */
  lemma NoneAhead(keys: seq<KeyValue>, current: int)
    requires 0 <= current < |keys|
    requires forall e: nat :: e < |keys| ==> !EnabledAhead(keys, current, e)
    ensures AllDisabled(keys)
  {
    forall i | 0 <= i < |keys|
      ensures keys[i].disabled
    {
      var e := if i >= current then i - current else i - current + |keys|;
      assert !EnabledAhead(keys, current, e);
    }
  }
}
