/** The order in which MONIO's maps from strings are walked: key by key, the
    smallest first. */
module SortedKeys {

  predicate Less(a: string, b: string) {
    b != "" && (a == "" || a[0] < b[0] || (a[0] == b[0] && Less(a[1..], b[1..])))
  }

  lemma {:induction false} LessIsTotal(a: string, b: string)
    ensures a == b || Less(a, b) || Less(b, a)
    ensures !(Less(a, b) && Less(b, a)) && !Less(a, a)
    decreases |a|
  {
    if a != "" && b != "" && a[0] == b[0] {
      LessIsTotal(a[1..], b[1..]);
      assert a == [a[0]] + a[1..] && b == [b[0]] + b[1..];
    }
    if a != "" { LessIsTotal(a[1..], a[1..]); }
  }

  /** Both begin alike for k characters; then the one ends, or has a smaller character. */
  ghost predicate DiffersAt(a: string, b: string, k: nat) {
    k <= |a| && k < |b| && a[..k] == b[..k] && (k == |a| || a[k] < b[k])
  }

  /** The order of strings is that of a dictionary. */
  lemma {:induction false} LessIff(a: string, b: string)
    ensures Less(a, b) <==> exists k: nat :: DiffersAt(a, b, k)
    decreases |a|
  {
    if a != "" && b != "" && a[0] == b[0] {
      LessIff(a[1..], b[1..]);
      if k: nat :| DiffersAt(a[1..], b[1..], k) {
        assert a[..k + 1] == [a[0]] + a[1..][..k] && b[..k + 1] == [b[0]] + b[1..][..k];
        assert DiffersAt(a, b, k + 1);
      }
      if k: nat :| DiffersAt(a, b, k) {
        assert k > 0 && a[1..][..k - 1] == a[..k][1..] && b[1..][..k - 1] == b[..k][1..];
        assert DiffersAt(a[1..], b[1..], k - 1);
      }
    } else {
      if Less(a, b) { assert DiffersAt(a, b, 0); }
      if k: nat :| DiffersAt(a, b, k) { assert k > 0 ==> a[..k][0] == b[..k][0]; }
    }
  }

  lemma {:induction false} LessIsTransitive(a: string, b: string, c: string)
    requires Less(a, b) && Less(b, c)
    ensures Less(a, c)
    decreases |a|
  {
    if a != "" && a[0] == b[0] && b[0] == c[0] { LessIsTransitive(a[1..], b[1..], c[1..]); }
  }

  predicate IsLeast(k: string, s: set<string>) {
    k in s && forall j :: j in s ==> j == k || Less(k, j)
  }

  lemma {:induction false} LeastExists(s: set<string>)
    requires s != {}
    ensures exists k :: IsLeast(k, s)
  {
    var x :| x in s;
    if s == {x} {
      assert IsLeast(x, s);
    } else {
      LeastExists(s - {x});
      var y :| IsLeast(y, s - {x});
      LessIsTotal(x, y);
      if Less(y, x) {
        assert IsLeast(y, s);
      } else {
        forall j | j in s ensures j == x || Less(x, j) {
          if j != x && j != y { LessIsTransitive(x, y, j); }
        }
        assert IsLeast(x, s);
      }
    }
  }

  lemma LeastIsUnique(s: set<string>, k: string, j: string)
    requires IsLeast(k, s) && IsLeast(j, s)
    ensures k == j
  {
    LessIsTotal(k, j);
  }

  function Least(s: set<string>): (k: string)
    requires s != {}
    ensures IsLeast(k, s)
  {
    LeastExists(s);
    assert forall k, j :: IsLeast(k, s) && IsLeast(j, s) ==> k == j by {
      forall k, j | IsLeast(k, s) && IsLeast(j, s) ensures k == j { LeastIsUnique(s, k, j); }
    }
    var k :| k in s && IsLeast(k, s);
    k
  }

  function Sorted(s: set<string>): seq<string>
    decreases s
  {
    if s == {} then [] else [Least(s)] + Sorted(s - {Least(s)})
  }

  lemma {:induction false} SortedHasKeys(s: set<string>)
    ensures forall k :: k in Sorted(s) <==> k in s
    ensures |Sorted(s)| == |s|
    decreases s
  {
    if s != {} {
      SortedHasKeys(s - {Least(s)});
    }
  }

  lemma {:induction false} SortedAscends(s: set<string>, i: nat, j: nat)
    requires i < j < |Sorted(s)|
    ensures Less(Sorted(s)[i], Sorted(s)[j])
    decreases s
  {
    var rest := s - {Least(s)};
    SortedHasKeys(rest);
    if i == 0 {
      assert Sorted(rest)[j - 1] in rest;
    } else {
      SortedAscends(rest, i - 1, j - 1);
    }
  }

  lemma SortedIsDistinct(s: set<string>)
    ensures forall i, j :: 0 <= i < j < |Sorted(s)| ==> Sorted(s)[i] != Sorted(s)[j]
  {
    forall i, j | 0 <= i < j < |Sorted(s)| ensures Sorted(s)[i] != Sorted(s)[j] {
      SortedAscends(s, i, j);
      LessIsTotal(Sorted(s)[i], Sorted(s)[j]);
    }
  }
}
