/**
 The `Sorted` container of src/Sorted.ts: parallel `keys`/`values` arrays
 kept in key order. `add` puts a key below the first key at the front, and
 otherwise finds, by binary lifting over steps 2^24, 2^23, ..., 1, the last
 index i >= 1 whose key is below the new key (0 when there is none) and
 inserts after it. The class is modelled as an immutable value; `Add`
 returns the updated container.
 */
module SortedKeys {

  datatype Sorted<V> = Sorted(keys: seq<real>, values: seq<V>)

  /** The first step of the binary lift (`0x1000000`). */
  const FirstStep: nat := 0x100_0000

  /** The largest length the lift can search: the steps sum to 2^25 - 1. */
  const MaxLength: nat := 0x200_0000

  /** A freshly constructed container. */
  function Empty<V>(): (s: Sorted<V>)
    ensures |s.keys| == 0 && |s.values| == 0
  {
    Sorted([], [])
  }

  predicate NonDecreasing(keys: seq<real>)
  {
    forall i, j :: 0 <= i < j < |keys| ==> keys[i] <= keys[j]
  }

  /** `s` with `x` inserted at position `p` (`splice(p, 0, x)` for `p <= |s|`). */
  function InsertAt<X>(s: seq<X>, p: nat, x: X): (r: seq<X>)
    requires p <= |s|
  {
    s[..p] + [x] + s[p..]
  }

  function Pow2(e: nat): nat
  {
    if e == 0 then 1 else 2 * Pow2(e - 1)
  }

  lemma FirstStepIsPow2()
    ensures Pow2(24) == FirstStep
  {
    assert Pow2(6) == 64;
    assert Pow2(12) == 4096;
    assert Pow2(18) == 262144;
  }

  /** The last index j >= 1 with `keys[j] < key`, or 0 when there is none; index 0 is
      never considered. */
  function LastBelow(keys: seq<real>, key: real): (r: nat)
    ensures r == 0 || (r < |keys| && keys[r] < key)
    ensures forall j :: r < j < |keys| && 0 < j ==> !(keys[j] < key)
    decreases |keys|
  {
    if |keys| <= 1 then 0
    else if keys[|keys| - 1] < key then |keys| - 1
    else LastBelow(keys[..|keys| - 1], key)
  }

  /** Where `add` puts `key`: the front when it is below the first key, otherwise just
      after `LastBelow`. */
  function Position(keys: seq<real>, key: real): (p: nat)
    ensures p <= |keys|
    ensures |keys| > 0 && key < keys[0] ==> p == 0
    ensures |keys| > 0 && keys[0] <= key ==> p >= 1
  {
    if |keys| == 0 || key < keys[0] then 0 else LastBelow(keys, key) + 1
  }

  /** The reference result of `add` on a sorted container. */
  function AddSpec<V>(s: Sorted<V>, key: real, value: V): Sorted<V>
    requires |s.keys| == |s.values|
  {
    var p := Position(s.keys, key);
    Sorted(InsertAt(s.keys, p, key), InsertAt(s.values, p, value))
  }

  /** `Sorted.add(key, value)`. */
  method Add<V>(s: Sorted<V>, key: real, value: V) returns (r: Sorted<V>)
    requires |s.keys| == |s.values|
    requires |s.keys| <= MaxLength
    ensures |r.keys| == |s.keys| + 1 && |r.values| == |s.values| + 1
    ensures exists p :: (0 <= p <= |s.keys|
      && r.keys == InsertAt(s.keys, p, key) && r.values == InsertAt(s.values, p, value))
    ensures |s.keys| == 0 ==> r.keys == [key] && r.values == [value]
    ensures |s.keys| > 0 && key < s.keys[0] ==> r.keys == [key] + s.keys && r.values == [value] + s.values
    ensures NonDecreasing(s.keys) ==> r == AddSpec(s, key, value)
  {
    var n := |s.keys|;
    if n > 0 && key < s.keys[0] {
      r := Sorted([key] + s.keys, [value] + s.values);
      assert r.keys == InsertAt(s.keys, 0, key) && r.values == InsertAt(s.values, 0, value);
      return;
    }
    ghost var target := LastBelow(s.keys, key);
    var i: nat := 0;
    var w: nat := FirstStep;
    ghost var e: int := 24;
    FirstStepIsPow2();
    while w >= 1
      invariant -1 <= e <= 24
      invariant w == if e < 0 then 0 else Pow2(e)
      invariant i == 0 || i < n
      invariant NonDecreasing(s.keys) ==> i <= target && target - i < 2 * w + (if e < 0 then 1 else 0)
      decreases w
    {
      if NonDecreasing(s.keys) {
        LiftStep(s.keys, key, i, w);
      }
      if i + w < n && s.keys[i + w] < key {
        i := i + w;
      }
      HalfPow2(e);
      w := w / 2;
      e := e - 1;
    }
    var p := if i + 1 <= n then i + 1 else n;
    LiftLands(s, key, value, i);
    r := Sorted(InsertAt(s.keys, p, key), InsertAt(s.values, p, value));
  }

  /** Halving a step of the lift gives the next step, and halving the last step ends it. */
  lemma HalfPow2(e: int)
    requires e >= 0
    ensures Pow2(e) / 2 == if e == 0 then 0 else Pow2(e - 1)
  {
  }

  /** Where the lift lands once it is within one step of `LastBelow`: the splice position
      is at most the length, an empty container gets the single pair, and on sorted keys
      the result is the reference insertion. */
  lemma LiftLands<V>(s: Sorted<V>, key: real, value: V, i: nat)
    requires |s.keys| == |s.values|
    requires i == 0 || i < |s.keys|
    requires |s.keys| == 0 || s.keys[0] <= key
    requires NonDecreasing(s.keys) ==> i == LastBelow(s.keys, key)
    ensures var p := if i + 1 <= |s.keys| then i + 1 else |s.keys|;
      && p <= |s.keys|
      && (|s.keys| == 0 ==> InsertAt(s.keys, p, key) == [key] && InsertAt(s.values, p, value) == [value])
      && (NonDecreasing(s.keys) ==>
            Sorted(InsertAt(s.keys, p, key), InsertAt(s.values, p, value)) == AddSpec(s, key, value))
  {
  }

  /** One step of the binary lift on sorted keys: taking step `w` when `keys[i + w]` is below
      `key` keeps `i` at or below `LastBelow` and brings it within `w` of it. */
  lemma LiftStep(keys: seq<real>, key: real, i: nat, w: nat)
    requires NonDecreasing(keys) && w >= 1
    requires i <= LastBelow(keys, key) < i + 2 * w
    ensures var i' := if i + w < |keys| && keys[i + w] < key then i + w else i;
      i' <= LastBelow(keys, key) < i' + w
  {
    if i + w < |keys| && !(keys[i + w] < key) {
      forall j | i + w <= j < |keys| ensures !(keys[j] < key) {
        assert keys[i + w] <= keys[j];
      }
    }
  }

  /** The key/value pairs of a container, in order. */
  function Entries<V>(s: Sorted<V>): (es: seq<(real, V)>)
    requires |s.keys| == |s.values|
    ensures |es| == |s.keys|
    ensures forall i :: 0 <= i < |es| ==> es[i] == (s.keys[i], s.values[i])
  {
    seq(|s.keys|, i requires 0 <= i < |s.keys| => (s.keys[i], s.values[i]))
  }

  /** On a sorted container, `Position` splits the keys: those before it (index 0 aside)
      are below `key`, those from it on are at least `key`. */
  lemma PositionSplitsKeys(keys: seq<real>, key: real)
    requires NonDecreasing(keys)
    ensures var p := Position(keys, key);
      && (forall j :: 0 < j < p ==> keys[j] < key)
      && (p > 0 ==> keys[0] <= key)
      && (forall j :: p <= j < |keys| ==> key <= keys[j])
  {
    var p := Position(keys, key);
    if p > 0 {
      var t := LastBelow(keys, key);
      forall j | 0 < j < p ensures keys[j] < key {
        assert keys[j] <= keys[t];
      }
    }
  }

  /** `add` keeps a sorted container sorted. */
  lemma AddKeepsOrder<V>(s: Sorted<V>, key: real, value: V)
    requires |s.keys| == |s.values| && NonDecreasing(s.keys)
    ensures NonDecreasing(AddSpec(s, key, value).keys)
  {
    var p := Position(s.keys, key);
    var r := AddSpec(s, key, value).keys;
    PositionSplitsKeys(s.keys, key);
    assert forall j :: 0 <= j < p ==> s.keys[j] <= key by {
      forall j | 0 <= j < p ensures s.keys[j] <= key {
        if j > 0 {
          assert s.keys[j] < key;
        }
      }
    }
    assert forall i :: 0 <= i < p ==> r[i] == s.keys[i];
    assert r[p] == key;
    assert forall i :: p < i < |r| ==> r[i] == s.keys[i - 1];
  }

  /** `add` grows both arrays by one and keeps every old key paired with its value and in
      its old order, with the new pair spliced in at one position. */
  lemma AddKeepsPairs<V>(s: Sorted<V>, key: real, value: V)
    requires |s.keys| == |s.values|
    ensures var r := AddSpec(s, key, value);
      && |r.keys| == |r.values| == |s.keys| + 1
      && Entries(r) == InsertAt(Entries(s), Position(s.keys, key), (key, value))
  {
    var p := Position(s.keys, key);
    var r := AddSpec(s, key, value);
    var es := InsertAt(Entries(s), p, (key, value));
    assert |Entries(r)| == |es|;
    forall i | 0 <= i < |es| ensures Entries(r)[i] == es[i] {
      if i > p {
        assert es[i] == Entries(s)[i - 1];
      }
    }
  }

  /** Splicing adds exactly one element. */
  lemma InsertAtPermutes<X>(s: seq<X>, p: nat, x: X)
    requires p <= |s|
    ensures multiset(InsertAt(s, p, x)) == multiset(s) + multiset{x}
  {
    assert s == s[..p] + s[p..];
  }

  /** A key equal to the first key goes right after it: index 0 is never compared. */
  lemma AddEqualToFirst<V>(s: Sorted<V>, key: real, value: V)
    requires |s.keys| == |s.values| && NonDecreasing(s.keys)
    requires |s.keys| > 0 && key == s.keys[0]
    ensures Position(s.keys, key) == 1
    ensures AddSpec(s, key, value).keys == [s.keys[0], key] + s.keys[1..]
  {
  }

  /** A key above every key already present is appended. */
  lemma AddAboveAll<V>(s: Sorted<V>, key: real, value: V)
    requires |s.keys| == |s.values| && NonDecreasing(s.keys)
    requires forall j :: 0 <= j < |s.keys| ==> s.keys[j] < key
    ensures AddSpec(s, key, value) == Sorted(s.keys + [key], s.values + [value])
  {
    var p := Position(s.keys, key);
    PositionSplitsKeys(s.keys, key);
    assert p == |s.keys|;
  }

  /** A container built by adding pairs one after another, from empty. */
  function AddAll<V>(s: Sorted<V>, entries: seq<(real, V)>): (r: Sorted<V>)
    requires |s.keys| == |s.values|
    ensures |r.keys| == |r.values| == |s.keys| + |entries|
    decreases |entries|
  {
    if |entries| == 0 then s
    else
      var init := AddAll(s, entries[..|entries| - 1]);
      AddSpec(init, entries[|entries| - 1].0, entries[|entries| - 1].1)
  }

  /** The keys of a sequence of pairs. */
  function KeysOf<V>(entries: seq<(real, V)>): (ks: seq<real>)
    ensures |ks| == |entries|
    ensures forall i :: 0 <= i < |ks| ==> ks[i] == entries[i].0
  {
    seq(|entries|, i requires 0 <= i < |entries| => entries[i].0)
  }

  /** Adding any pairs one by one to a sorted container keeps it sorted, and its keys are
      exactly the old keys together with the added ones. */
  lemma {:induction false} AddAllSorted<V>(s: Sorted<V>, entries: seq<(real, V)>)
    requires |s.keys| == |s.values| && NonDecreasing(s.keys)
    ensures NonDecreasing(AddAll(s, entries).keys)
    ensures multiset(AddAll(s, entries).keys) == multiset(s.keys) + multiset(KeysOf(entries))
    decreases |entries|
  {
    if |entries| == 0 {
      assert KeysOf(entries) == [];
    } else {
      AddAllSorted(s, entries[..|entries| - 1]);
      AddAllStep(s, entries);
    }
  }

  /** The inductive step of `AddAllSorted`: one more pair at the end. */
  lemma AddAllStep<V>(s: Sorted<V>, entries: seq<(real, V)>)
    requires |s.keys| == |s.values| && |entries| > 0
    requires NonDecreasing(AddAll(s, entries[..|entries| - 1]).keys)
    requires multiset(AddAll(s, entries[..|entries| - 1]).keys)
      == multiset(s.keys) + multiset(KeysOf(entries[..|entries| - 1]))
    ensures NonDecreasing(AddAll(s, entries).keys)
    ensures multiset(AddAll(s, entries).keys) == multiset(s.keys) + multiset(KeysOf(entries))
  {
    var prefix := entries[..|entries| - 1];
    var last := entries[|entries| - 1];
    var init := AddAll(s, prefix);
    assert AddAll(s, entries) == AddSpec(init, last.0, last.1);
    AddKeepsOrder(init, last.0, last.1);
    InsertAtPermutes(init.keys, Position(init.keys, last.0), last.0);
    KeysOfPrefix(entries);
    LastCounted(multiset(AddAll(s, entries).keys), multiset(init.keys), multiset(s.keys), KeysOf(entries));
  }

  /** The keys of all but the last pair are all but the last key. */
  lemma KeysOfPrefix<V>(entries: seq<(real, V)>)
    requires |entries| > 0
    ensures KeysOf(entries[..|entries| - 1]) == KeysOf(entries)[..|entries| - 1]
  {
  }

  /** Adding pairs one by one keeps every pair already held and every pair added, each
      key still paired with its value. */
  lemma {:induction false} AddAllPairs<V>(s: Sorted<V>, entries: seq<(real, V)>)
    requires |s.keys| == |s.values|
    ensures multiset(Entries(AddAll(s, entries))) == multiset(Entries(s)) + multiset(entries)
    decreases |entries|
  {
    if |entries| > 0 {
      var prefix := entries[..|entries| - 1];
      AddAllPairs(s, prefix);
      AddLastPairs(s, entries);
      LastCounted(multiset(Entries(AddAll(s, entries))), multiset(Entries(AddAll(s, prefix))),
        multiset(Entries(s)), entries);
    }
  }

  /** Counting the elements of a non-empty sequence as those before its last one, plus it. */
  lemma LastCounted<X>(total: multiset<X>, before: multiset<X>, base: multiset<X>, xs: seq<X>)
    requires |xs| > 0
    requires before == base + multiset(xs[..|xs| - 1])
    requires total == before + multiset{xs[|xs| - 1]}
    ensures total == base + multiset(xs)
  {
    assert xs == xs[..|xs| - 1] + [xs[|xs| - 1]];
  }

  /** The last add of `AddAll` adds the last pair to those held before it. */
  lemma AddLastPairs<V>(s: Sorted<V>, entries: seq<(real, V)>)
    requires |s.keys| == |s.values| && |entries| > 0
    ensures multiset(Entries(AddAll(s, entries)))
      == multiset(Entries(AddAll(s, entries[..|entries| - 1]))) + multiset{entries[|entries| - 1]}
  {
    var last := entries[|entries| - 1];
    AddPairs(AddAll(s, entries[..|entries| - 1]), last.0, last.1);
  }

  /** One add keeps every pair held and adds the new one. */
  lemma AddPairs<V>(s: Sorted<V>, key: real, value: V)
    requires |s.keys| == |s.values|
    ensures multiset(Entries(AddSpec(s, key, value))) == multiset(Entries(s)) + multiset{(key, value)}
  {
    AddKeepsPairs(s, key, value);
    InsertAtPermutes(Entries(s), Position(s.keys, key), (key, value));
  }

  /** A container built from empty by any sequence of adds has sorted keys and holds
      exactly the added pairs. */
  lemma BuildFromEmpty<V>(entries: seq<(real, V)>)
    ensures var r := AddAll(Empty<V>(), entries);
      && NonDecreasing(r.keys)
      && multiset(r.keys) == multiset(KeysOf(entries))
      && multiset(Entries(r)) == multiset(entries)
  {
    AddAllSorted(Empty<V>(), entries);
    AddAllPairs(Empty<V>(), entries);
  }
}
