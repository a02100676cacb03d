/** The two equality operators, which walk two maps side by side in key order
    (src/monio/Data.cc, src/monio/Metadata.cc). */
module Equality {
  import opened SortedKeys
  import opened Store

  /** Entry i of a map in key order. */
  function Entry<V>(m: map<string, V>, i: nat): (r: (string, V))
    requires i < |m|
    ensures r.0 in m && r.1 == m[r.0]
  {
    SortedHasKeys(m.Keys);
    var k := Sorted(m.Keys)[i];
    (k, m[k])
  }

  ghost predicate SameEntries<V>(a: map<string, V>, b: map<string, V>, n: nat)
    requires n <= |a| && n <= |b|
  {
    forall i :: 0 <= i < n ==> Entry(a, i) == Entry(b, i)
  }

  /** Walking side by side finds no difference exactly when there is none. */
  lemma SideBySide<V>(a: map<string, V>, b: map<string, V>)
    ensures |a| == |b| && SameEntries(a, b, |a|) <==> a == b
  {
    if |a| == |b| && SameEntries(a, b, |a|) {
      SortedHasKeys(a.Keys);
      SortedHasKeys(b.Keys);
      forall k | k in a ensures k in b && b[k] == a[k] {
        var i :| 0 <= i < |a| && Sorted(a.Keys)[i] == k;
        assert Entry(a, i) == Entry(b, i);
      }
      forall k | k in b ensures k in a {
        var i :| 0 <= i < |b| && Sorted(b.Keys)[i] == k;
        assert Entry(a, i) == Entry(b, i);
      }
      assert a.Keys == b.Keys;
    }
  }

  method CompareData(lhs: seq<real>, rhs: seq<real>) returns (same: bool)
    ensures same == (lhs == rhs)
  {
    if |lhs| != |rhs| { return false; }
    for i := 0 to |lhs|
      invariant lhs[..i] == rhs[..i]
    {
      if lhs[i] != rhs[i] { return false; }
    }
    return true;
  }

  ghost predicate KeyedByName(data: Containers) { forall k :: k in data ==> data[k].name == k }

  ghost predicate SameContainers(lhs: Containers, rhs: Containers) {
    |lhs| == |rhs| && forall i :: 0 <= i < |lhs| ==> Entry(lhs, i).1 == Entry(rhs, i).1
  }

  /** The loop compares types, names and values; the keys themselves it never looks at. */
  method EqualData(lhs: Data, rhs: Data) returns (same: bool)
    ensures same == SameContainers(lhs.containers, rhs.containers)
  {
    if |lhs.containers| != |rhs.containers| { return false; }
    for i := 0 to |lhs.containers|
      invariant forall h :: 0 <= h < i ==> Entry(lhs.containers, h).1 == Entry(rhs.containers, h).1
    {
      var l, r := Entry(lhs.containers, i).1, Entry(rhs.containers, i).1;
      if l.typ == r.typ && l.name == r.name {
        var equal := CompareData(l.data, r.data);
        if !equal { return false; }
      } else {
        return false;
      }
    }
    return true;
  }

  /** With every key its container's name, the operator says whether the maps are equal. */
  lemma DataEqualityIsEquality(lhs: Containers, rhs: Containers)
    requires KeyedByName(lhs) && KeyedByName(rhs)
    ensures SameContainers(lhs, rhs) <==> lhs == rhs
  {
    SideBySide(lhs, rhs);
    if SameContainers(lhs, rhs) {
      SortedHasKeys(lhs.Keys);
      SortedHasKeys(rhs.Keys);
      forall i | 0 <= i < |lhs| ensures Entry(lhs, i) == Entry(rhs, i) {
        assert Entry(lhs, i).0 == Entry(lhs, i).1.name;
        assert Entry(rhs, i).0 == Entry(rhs, i).1.name;
      }
    }
  }

  method EqualAttributes(lhs: map<string, Attribute>, rhs: map<string, Attribute>) returns (same: bool)
    ensures same == (lhs == rhs)
  {
    SideBySide(lhs, rhs);
    if |lhs| != |rhs| { return false; }
    for i := 0 to |lhs|
      invariant SameEntries(lhs, rhs, i)
    {
      var l, r := Entry(lhs, i), Entry(rhs, i);
      if l.0 != r.0 || l.1 != r.1 { return false; }
    }
    return true;
  }

  method EqualVariables(lhs: Variable, rhs: Variable) returns (same: bool)
    ensures same == (lhs.View() == rhs.View())
  {
    var lhsTotSize := lhs.GetTotalSize();
    var rhsTotSize := rhs.GetTotalSize();
    if lhs.name == rhs.name && lhs.typ == rhs.typ && lhsTotSize == rhsTotSize &&
       |lhs.dimensions| == |rhs.dimensions| {
      for i := 0 to |lhs.dimensions|
        invariant lhs.dimensions[..i] == rhs.dimensions[..i]
      {
        if lhs.dimensions[i].0 != rhs.dimensions[i].0 || lhs.dimensions[i].1 != rhs.dimensions[i].1 { return false; }
      }
      same := EqualAttributes(lhs.attributes, rhs.attributes);
    } else {
      return false;
    }
  }

  /** Dimensions are compared only when there are as many, and then only their sizes. */
  ghost predicate DimensionsPass(lhs: map<string, nat>, rhs: map<string, nat>) {
    |lhs| == |rhs| ==> forall i :: 0 <= i < |lhs| ==> Entry(lhs, i).1 == Entry(rhs, i).1
  }

  method EqualDimensions(lhs: map<string, nat>, rhs: map<string, nat>) returns (same: bool)
    ensures same == DimensionsPass(lhs, rhs)
  {
    if |lhs| == |rhs| {
      for i := 0 to |lhs|
        invariant forall h :: 0 <= h < i ==> Entry(lhs, h).1 == Entry(rhs, h).1
      {
        if Entry(lhs, i).1 != Entry(rhs, i).1 { return false; }
      }
    }
    return true;
  }

  lemma EntryOfViews(vars: map<string, Variable>, i: nat)
    requires i < |vars|
    ensures |ViewsOf(vars)| == |vars| && Entry(ViewsOf(vars), i) == (Entry(vars, i).0, Entry(vars, i).1.View())
  {
    assert |ViewsOf(vars).Keys| == |vars.Keys|;
  }

  method EqualEntry(lhs: map<string, Variable>, rhs: map<string, Variable>, i: nat) returns (same: bool)
    requires |lhs| == |rhs| && i < |lhs|
    requires forall k :: k in lhs ==> lhs[k].name == k
    requires forall k :: k in rhs ==> rhs[k].name == k
    ensures |ViewsOf(lhs)| == |lhs| && |ViewsOf(rhs)| == |rhs|
    ensures same == (Entry(ViewsOf(lhs), i) == Entry(ViewsOf(rhs), i))
  {
    EntryOfViews(lhs, i);
    EntryOfViews(rhs, i);
    var l, r := Entry(lhs, i), Entry(rhs, i);
    assert l.1.name == l.0 && r.1.name == r.0;
    same := EqualVariables(l.1, r.1);
  }

  method EqualVariableMaps(lhs: map<string, Variable>, rhs: map<string, Variable>) returns (same: bool)
    requires |lhs| == |rhs|
    requires forall k :: k in lhs ==> lhs[k].name == k
    requires forall k :: k in rhs ==> rhs[k].name == k
    ensures same == (ViewsOf(lhs) == ViewsOf(rhs))
  {
    ghost var l, r := ViewsOf(lhs), ViewsOf(rhs);
    assert |l.Keys| == |lhs.Keys| && |r.Keys| == |rhs.Keys|;
    SideBySide(l, r);
    for i := 0 to |lhs|
      invariant l == ViewsOf(lhs) && r == ViewsOf(rhs) && SameEntries(l, r, i)
    {
      same := EqualEntry(lhs, rhs, i);
      assert same == (Entry(l, i) == Entry(r, i));
      if !same { return; }
    }
    return true;
  }

  /** The operator says whether the variables are equal, names, types, dimensions and
      attributes, and hardly anything about dimensions. Global attributes are left out. */
  method EqualMetadata(lhs: Metadata, rhs: Metadata) returns (same: bool)
    requires lhs.Valid() && rhs.Valid()
    ensures same <==> DimensionsPass(lhs.dimensions, rhs.dimensions) && ViewsOf(lhs.variables) == ViewsOf(rhs.variables)
  {
    same := EqualDimensions(lhs.dimensions, rhs.dimensions);
    if !same { return; }
    assert |ViewsOf(lhs.variables).Keys| == |lhs.variables.Keys| &&
      |ViewsOf(rhs.variables).Keys| == |rhs.variables.Keys|;
    if |lhs.variables| != |rhs.variables| { return false; }
    same := EqualVariableMaps(lhs.variables, rhs.variables);
  }

  /** Among dimension maps with the same names just the equal ones pass. */
  lemma DimensionsOfSameNames(lhs: map<string, nat>, rhs: map<string, nat>)
    requires lhs.Keys == rhs.Keys
    ensures DimensionsPass(lhs, rhs) <==> lhs == rhs
  {
    assert |lhs| == |lhs.Keys| == |rhs.Keys| == |rhs|;
    SideBySide(lhs, rhs);
    if DimensionsPass(lhs, rhs) {
      assert SameEntries(lhs, rhs, |lhs|);
    }
  }

  /** Every dimension of size one. */
  function AllOnes(names: set<string>): (m: map<string, nat>)
    ensures m.Keys == names
  {
    map k | k in names :: 1
  }

  /** Such maps always pass, whatever their names. */
  lemma OnesPass(a: set<string>, b: set<string>)
    ensures DimensionsPass(AllOnes(a), AllOnes(b))
  {
  }

  /** For all maps with these names the comparison decides whether they are equal. */
  ghost predicate DecidesEquality(a: set<string>, b: set<string>) {
    forall l: map<string, nat>, r: map<string, nat> :: l.Keys == a && r.Keys == b ==> (DimensionsPass(l, r) <==> l == r)
  }

  /** The comparison of dimensions decides equality if and only if both have the same names. */
  lemma DimensionsComparedIff(a: set<string>, b: set<string>)
    ensures DecidesEquality(a, b) <==> a == b
  {
    if a == b {
      forall l: map<string, nat>, r: map<string, nat> | l.Keys == a && r.Keys == b
        ensures DimensionsPass(l, r) <==> l == r
      {
        DimensionsOfSameNames(l, r);
      }
    } else {
      OnesPass(a, b);
      assert AllOnes(a).Keys == a && AllOnes(b).Keys == b;
    }
  }
}
