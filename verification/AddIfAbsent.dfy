/** Adding entries one by one to a map that keeps what it already has: the rule by
    which MONIO's maps are filled. */
module AddIfAbsent {
  import opened SortedKeys

  function IfAbsent<V>(m: map<string, V>, k: string, v: V): map<string, V> {
    if k in m then m else m[k := v]
  }

  /** Map `into` after the entries of `from` for these keys were added in turn. */
  function AddAll<V>(into: map<string, V>, from: map<string, V>, keys: seq<string>): map<string, V>
    requires forall k :: k in keys ==> k in from
  {
    if keys == [] then into
    else
      var n := |keys| - 1;
      IfAbsent(AddAll(into, from, keys[..n]), keys[n], from[keys[n]])
  }

  lemma AddNext<V>(into: map<string, V>, from: map<string, V>, keys: seq<string>, i: nat)
    requires i < |keys| && forall k :: k in keys ==> k in from
    ensures AddAll(into, from, keys[..i + 1]) == IfAbsent(AddAll(into, from, keys[..i]), keys[i], from[keys[i]])
  {
    assert keys[..i + 1][..i] == keys[..i];
  }

  /** The same when only the keys up to this one are known to be there. */
  lemma AddNextKnown<V>(into: map<string, V>, from: map<string, V>, keys: seq<string>, i: nat)
    requires i < |keys| && (forall k :: k in keys[..i] ==> k in from) && keys[i] in from
    ensures forall k :: k in keys[..i + 1] ==> k in from
    ensures AddAll(into, from, keys[..i + 1]) == IfAbsent(AddAll(into, from, keys[..i]), keys[i], from[keys[i]])
  {
    assert keys[..i + 1] == keys[..i] + [keys[i]];
    assert keys[..i + 1][..i] == keys[..i];
  }

  lemma {:induction false} AddAllKeys<V>(into: map<string, V>, from: map<string, V>, keys: seq<string>)
    requires forall k :: k in keys ==> k in from
    ensures forall k :: k in AddAll(into, from, keys) <==> k in into || k in keys
  {
    if keys != [] {
      AddAllKeys(into, from, keys[..|keys| - 1]);
      assert keys == keys[..|keys| - 1] + [keys[|keys| - 1]];
    }
  }

  function Restricted<V>(m: map<string, V>, keys: set<string>): map<string, V> { map k | k in m && k in keys :: m[k] }

  lemma {:induction false} AddAllIs<V>(into: map<string, V>, from: map<string, V>, keys: seq<string>)
    requires forall k :: k in keys ==> k in from
    ensures AddAll(into, from, keys) == Restricted(from, set k | k in keys) + into
  {
    if keys != [] { AddAllIs(into, from, keys[..|keys| - 1]); }
  }

  /** Once all are added, the map has its old entries and under them the new ones. */
  lemma AddEverything<V>(into: map<string, V>, from: map<string, V>)
    ensures forall k :: k in Sorted(from.Keys) ==> k in from
    ensures AddAll(into, from, Sorted(from.Keys)) == from + into
  {
    var keys := Sorted(from.Keys);
    SortedHasKeys(from.Keys);
    AddAllIs(into, from, keys);
    assert Restricted(from, set k | k in keys) == from;
  }

  /** All of the keys are good, found out one by one. */
  ghost predicate AllOf(keys: seq<string>, good: set<string>) {
    keys == [] || (AllOf(keys[..|keys| - 1], good) && keys[|keys| - 1] in good)
  }

  lemma {:induction false} NextOf(keys: seq<string>, good: set<string>, i: nat)
    requires i < |keys|
    ensures AllOf(keys[..i + 1], good) <==> AllOf(keys[..i], good) && keys[i] in good
    ensures AllOf(keys, good) ==> AllOf(keys[..i + 1], good)
    decreases |keys|
  {
    assert keys[..i + 1][..i] == keys[..i];
    if i + 1 < |keys| {
      NextOf(keys[..|keys| - 1], good, i);
      assert keys[..|keys| - 1][..i + 1] == keys[..i + 1];
    } else {
      assert keys[..i + 1] == keys;
    }
  }

  lemma {:induction false} AllOfIs(keys: seq<string>, good: set<string>)
    ensures AllOf(keys, good) <==> forall k :: k in keys ==> k in good
  {
    if keys != [] {
      AllOfIs(keys[..|keys| - 1], good);
      assert keys == keys[..|keys| - 1] + [keys[|keys| - 1]];
    }
  }

  lemma AllOfSorted(s: set<string>, good: set<string>)
    ensures AllOf(Sorted(s), good) <==> s <= good
  {
    SortedHasKeys(s);
    AllOfIs(Sorted(s), good);
  }

  // ---------------------------------------------------------------------------
  // Sums of maps
  // ---------------------------------------------------------------------------

  lemma AddToNothing<V>(m: map<string, V>)
    ensures m + map[] == m == map[] + m && m + m == m
  {
  }

  lemma AddOne<V>(m: map<string, V>, k: string, v: V)
    ensures m + map[][k := v] == m[k := v]
  {
  }

  ghost predicate Within<V>(a: map<string, V>, b: map<string, V>) {
    forall k :: k in a ==> k in b && b[k] == a[k]
  }

  lemma WithinUnion<V>(a: map<string, V>, b: map<string, V>)
    requires Within(a, b)
    ensures b + a == b && a + b == b
  {
  }
}
