/** The two data orders: Atlas order in memory (point, level) and LFRic order in a
    container, where element (point p, level j) of n points stands at p + j * n.
    Models populateDataVec and copySurfaceLevel of src/monio/AtlasWriter.cc and
    populateField of src/monio/AtlasReader.cc. */
module DataOrder {

  const FULL_LEVELS: nat := 71
  const HALF_LEVELS: nat := 70

  /** Field values by point, then level. */
  type Cells = seq<seq<real>>

  ghost predicate Shaped(cells: Cells, points: nat, levels: nat) {
    |cells| == points && forall i :: 0 <= i < points ==> |cells[i]| == levels
  }

  ghost function CellsOf(view: array2<real>): (c: Cells)
    reads view
    ensures Shaped(c, view.Length0, view.Length1)
    ensures forall i, j :: 0 <= i < view.Length0 && 0 <= j < view.Length1 ==> c[i][j] == view[i, j]
  {
    seq(view.Length0, i requires 0 <= i < view.Length0 reads view =>
      seq(view.Length1, j requires 0 <= j < view.Length1 reads view => view[i, j]))
  }

  // ---------------------------------------------------------------------------
  // The flat index
  // ---------------------------------------------------------------------------

  function Flat(p: nat, j: nat, n: nat): nat { p + j * n }

  lemma MulOrder(a: nat, b: nat, n: nat)
    ensures a <= b ==> a * n <= b * n
  {
  }

  /** Levels follow one another: all of level j comes before any of level k > j. */
  lemma FlatOrder(p: nat, j: nat, q: nat, k: nat, n: nat)
    requires p < n
    ensures j < k ==> Flat(p, j, n) < Flat(q, k, n)
  {
    MulOrder(j + 1, k, n);
    assert (j + 1) * n == j * n + n;
  }

  lemma FlatBound(p: nat, j: nat, n: nat, levels: nat)
    requires p < n && j < levels
    ensures Flat(p, j, n) < n * levels
  {
    FlatOrder(p, j, 0, levels, n);
  }

  lemma FlatInjective(p: nat, j: nat, q: nat, k: nat, n: nat)
    requires p < n && q < n && Flat(p, j, n) == Flat(q, k, n)
    ensures p == q && j == k
  {
    FlatOrder(p, j, q, k, n);
    FlatOrder(q, k, p, j, n);
  }

  /** Every position of a container is some point's at some level. */
  lemma FlatSplit(x: nat, n: nat, levels: nat)
    requires n > 0 && x < n * levels
    ensures x / n < levels && x % n < n && x == Flat(x % n, x / n, n)
  {
    var j := x / n;
    assert x == j * n + x % n;
    MulOrder(levels, j, n);
  }

  // ---------------------------------------------------------------------------
  // Maps between the orders
  // ---------------------------------------------------------------------------

  type Map = seq<nat>

  ghost predicate InRange(m: Map) { forall i :: 0 <= i < |m| ==> m[i] < |m| }

  ghost predicate Injective(m: Map) {
    forall i, j :: 0 <= i < j < |m| ==> m[i] != m[j]
  }

  ghost predicate Permutation(m: Map) { InRange(m) && Injective(m) }

  /** The last place where the map has value p, the one whose data the writer keeps. */
  ghost function LastAt(m: Map, p: nat): int {
    if m == [] then -1 else if m[|m| - 1] == p then |m| - 1 else LastAt(m[..|m| - 1], p)
  }

  lemma {:induction false} LastAtFinds(m: Map, p: nat)
    ensures var i := LastAt(m, p);
            -1 <= i < |m| && (i >= 0 ==> m[i] == p) && forall k :: i < k < |m| ==> m[k] != p
  {
    if m != [] && m[|m| - 1] != p {
      LastAtFinds(m[..|m| - 1], p);
    }
  }

  ghost function Below(n: nat): (s: set<nat>)
    ensures |s| == n && forall x :: x in s <==> 0 <= x < n
  {
    if n == 0 then {} else Below(n - 1) + {n - 1}
  }

  ghost function Image(m: Map): set<nat> {
    if m == [] then {} else Image(m[..|m| - 1]) + {m[|m| - 1]}
  }

  lemma {:induction false} ImageIs(m: Map)
    ensures forall x :: x in Image(m) <==> x in m
    ensures Injective(m) ==> |Image(m)| == |m|
  {
    if m != [] {
      var n := |m| - 1;
      ImageIs(m[..n]);
      assert m == m[..n] + [m[n]];
      if Injective(m) { assert m[n] !in m[..n]; }
    }
  }

  /** Pigeonhole: an injective map of 0..n-1 into itself reaches every value. */
  lemma {:induction false} Surjective(m: Map, p: nat)
    requires Permutation(m) && p < |m|
    ensures 0 <= LastAt(m, p) < |m| && m[LastAt(m, p)] == p
  {
    LastAtFinds(m, p);
    ImageIs(m);
    var rest := Below(|m|) - Image(m);
    assert Below(|m|) == Image(m) + rest;
    assert p in Below(|m|) && (p in Image(m) || p in rest);
    assert |rest| == 0;
  }

  lemma LastAtInjective(m: Map, i: nat)
    requires Injective(m) && i < |m|
    ensures LastAt(m, m[i]) == i
  {
    LastAtFinds(m, m[i]);
  }

  // ---------------------------------------------------------------------------
  // Writing: from a field into a container
  // ---------------------------------------------------------------------------

  datatype Outcome = Done | Thrown | Undefined

  /** The value at point p, level j after the writer's loops over the field points
      before i: that of the last of them mapped to p, or what was there before. */
  ghost predicate LoopsWrote(after: seq<real>, before: seq<real>, m: Map, view: Cells, i: nat)
    requires i <= |m| && InRange(m)
  {
    && |after| == |before|
    && forall p, j :: 0 <= p < |m| && 0 <= j && Flat(p, j, |m|) < |after| ==>
         after[Flat(p, j, |m|)] == WrittenAt(before, m, view, i, p, j)
  }

  ghost function WrittenAt(before: seq<real>, m: Map, view: Cells, i: nat, p: nat, j: nat): real
    requires i <= |m| && p < |m| && Flat(p, j, |m|) < |before|
  {
    var k := LastAt(m[..i], p);
    if 0 <= k < |view| && j < |view[k]| then view[k][j] else before[Flat(p, j, |m|)]
  }

  /** Vector `data` is the container of `cells` under map m. */
  ghost predicate Encodes(data: seq<real>, m: Map, cells: Cells, levels: nat) {
    && |data| == |m| * levels && Shaped(cells, |m|, levels)
    && forall i, j :: 0 <= i < |m| && 0 <= j < levels && Flat(m[i], j, |m|) < |data| ==>
         data[Flat(m[i], j, |m|)] == cells[i][j]
  }

  /** The writer's copy into a container, for any map into range: where several points
      share a target the last one wins, and targets of no point keep their old value. */
  method PopulateDataVec(dataVec: array<real>, field: array2<real>, lfricToAtlasMap: Map) returns (r: Outcome)
    requires InRange(lfricToAtlasMap)
    requires |lfricToAtlasMap| * field.Length1 == dataVec.Length && field.Length1 > 0 ==>
               |lfricToAtlasMap| <= field.Length0
    modifies dataVec
    ensures r == if |lfricToAtlasMap| * field.Length1 != dataVec.Length then Thrown else Done
    ensures r.Thrown? ==> dataVec[..] == old(dataVec[..])
    ensures r.Done? ==> LoopsWrote(dataVec[..], old(dataVec[..]), lfricToAtlasMap, CellsOf(field), |lfricToAtlasMap|)
  {
    var m, n, numLevels := lfricToAtlasMap, |lfricToAtlasMap|, field.Length1;
    if n * numLevels != dataVec.Length { return Thrown; }
    ghost var was, cells := dataVec[..], CellsOf(field);
    for i := 0 to n
      invariant LoopsWrote(dataVec[..], was, m, cells, i)
    {
      ghost var row := dataVec[..];
      for j := 0 to numLevels
        invariant forall p, k :: 0 <= p < n && 0 <= k && Flat(p, k, n) < dataVec.Length ==>
                    dataVec[Flat(p, k, n)] == if p == m[i] && k < j then field[i, k] else row[Flat(p, k, n)]
      {
        FlatBound(m[i], j, n, numLevels);
        var index := m[i] + j * n;
        dataVec[index] := field[i, j];
        forall p, k | 0 <= p < n && 0 <= k && Flat(p, k, n) < dataVec.Length && Flat(p, k, n) == index
          ensures p == m[i] && k == j
        {
          FlatInjective(p, k, m[i], j, n);
        }
      }
      NextRow(dataVec[..], row, was, m, cells, i, numLevels);
    }
    return Done;
  }

  lemma NextRow(after: seq<real>, row: seq<real>, was: seq<real>, m: Map, cells: Cells, i: nat, levels: nat)
    requires InRange(m) && i < |m| && |was| == |m| * levels
    requires levels > 0 ==> |m| <= |cells| && |cells[i]| == levels
    requires LoopsWrote(row, was, m, cells, i) && |after| == |row|
    requires forall p, k :: 0 <= p < |m| && 0 <= k && Flat(p, k, |m|) < |after| ==>
               after[Flat(p, k, |m|)] == if p == m[i] && k < levels then cells[i][k] else row[Flat(p, k, |m|)]
    ensures LoopsWrote(after, was, m, cells, i + 1)
  {
    assert m[..i + 1][..i] == m[..i];
    forall p, k | 0 <= p < |m| && 0 <= k && Flat(p, k, |m|) < |after|
      ensures after[Flat(p, k, |m|)] == WrittenAt(was, m, cells, i + 1, p, k)
    {
      assert k < levels by { MulOrder(levels, k, |m|); }
    }
  }

  /** A permutation leaves no freedom: two containers of the same field are equal. */
  lemma EncodingIsUnique(a: seq<real>, b: seq<real>, m: Map, cells: Cells, levels: nat)
    requires Permutation(m) && Encodes(a, m, cells, levels) && Encodes(b, m, cells, levels)
    ensures a == b
  {
    var n := |m|;
    forall x | 0 <= x < |a| ensures a[x] == b[x] {
      FlatSplit(x, n, levels);
      Surjective(m, x % n);
      var i := LastAt(m, x % n);
      assert Flat(m[i], x / n, n) == x;
    }
  }

  /** The field value that belongs at position x of the container; zero, as in a new
      container, if no point is mapped there. */
  ghost function ValueFor(m: Map, cells: Cells, levels: nat, x: nat): real
    requires InRange(m) && Shaped(cells, |m|, levels) && x < |m| * levels
  {
    if |m| == 0 then 0.0
    else
      FlatSplit(x, |m|, levels);
      LastAtFinds(m, x % |m|);
      if LastAt(m, x % |m|) < 0 then 0.0 else cells[LastAt(m, x % |m|)][x / |m|]
  }

  /** Writing a field to a new container, as one function of the field. */
  ghost function Container(m: Map, cells: Cells, levels: nat): (data: seq<real>)
    requires InRange(m) && Shaped(cells, |m|, levels)
    ensures |data| == |m| * levels && (Permutation(m) ==> Encodes(data, m, cells, levels))
  {
    var data := seq(|m| * levels, x requires 0 <= x < |m| * levels => ValueFor(m, cells, levels, x));
    assert Permutation(m) ==> Encodes(data, m, cells, levels) by {
      if Permutation(m) {
        forall i, j | 0 <= i < |m| && 0 <= j < levels
          ensures Flat(m[i], j, |m|) < |data| && data[Flat(m[i], j, |m|)] == cells[i][j]
        {
          ValueForSource(m, cells, levels, i, j);
        }
      }
    }
    data
  }

  lemma ValueForSource(m: Map, cells: Cells, levels: nat, i: nat, j: nat)
    requires Permutation(m) && Shaped(cells, |m|, levels) && i < |m| && j < levels
    ensures Flat(m[i], j, |m|) < |m| * levels && ValueFor(m, cells, levels, Flat(m[i], j, |m|)) == cells[i][j]
  {
    var x, n := Flat(m[i], j, |m|), |m|;
    FlatBound(m[i], j, n, levels);
    FlatSplit(x, n, levels);
    FlatInjective(x % n, x / n, m[i], j, n);
    LastAtInjective(m, i);
  }

  /** The writer's loops turn a container of zeros into that function's value. */
  lemma LoopsMakeValue(after: seq<real>, before: seq<real>, m: Map, cells: Cells, levels: nat, x: nat)
    requires InRange(m) && Shaped(cells, |m|, levels) && |before| == |m| * levels && x < |before| && before[x] == 0.0
    requires LoopsWrote(after, before, m, cells, |m|)
    ensures |after| == |before| && after[x] == ValueFor(m, cells, levels, x)
  {
    var n := |m|;
    FlatSplit(x, n, levels);
    LastAtFinds(m, x % n);
    assert m[..n] == m;
    assert after[Flat(x % n, x / n, n)] == WrittenAt(before, m, cells, n, x % n, x / n);
  }

  lemma LoopsMakeContainer(after: seq<real>, before: seq<real>, m: Map, cells: Cells, levels: nat)
    requires InRange(m) && Shaped(cells, |m|, levels) && |before| == |m| * levels
    requires LoopsWrote(after, before, m, cells, |m|) && forall x :: 0 <= x < |before| ==> before[x] == 0.0
    ensures after == Container(m, cells, levels)
  {
    forall x | 0 <= x < |before| ensures after[x] == ValueFor(m, cells, levels, x) {
      LoopsMakeValue(after, before, m, cells, levels, x);
    }
  }

  // ---------------------------------------------------------------------------
  // The surface level the LFRic files carry and the fields do not
  // ---------------------------------------------------------------------------

  ghost function WithSurface(cells: Cells): (r: Cells)
    requires forall i :: 0 <= i < |cells| ==> |cells[i]| > 0
    ensures |r| == |cells| && forall i :: 0 <= i < |cells| ==> r[i] == [cells[i][0]] + cells[i]
  {
    seq(|cells|, i requires 0 <= i < |cells| => [cells[i][0]] + cells[i])
  }

  method CopySurfaceLevel(input: array2<real>) returns (copied: array2<real>)
    requires input.Length1 == HALF_LEVELS
    ensures fresh(copied) && copied.Length0 == input.Length0 && copied.Length1 == FULL_LEVELS
    ensures CellsOf(copied) == WithSurface(CellsOf(input))
  {
    var n := input.Length0;
    copied := new real[n, FULL_LEVELS];
    for j := 0 to input.Length1
      invariant forall i, k :: 0 <= i < n && 1 <= k <= j ==> copied[i, k] == input[i, k - 1]
    {
      for i := 0 to n
        invariant forall h, k :: 0 <= h < n && 1 <= k <= j ==> copied[h, k] == input[h, k - 1]
        invariant forall h :: 0 <= h < i ==> copied[h, j + 1] == input[h, j]
      {
        copied[i, j + 1] := input[i, j];
      }
    }
    for i := 0 to n
      invariant forall h, k :: 0 <= h < n && 1 <= k <= HALF_LEVELS ==> copied[h, k] == input[h, k - 1]
      invariant forall h :: 0 <= h < i ==> copied[h, 0] == input[h, 0]
    {
      copied[i, 0] := input[i, 0];
    }
    ghost var cells, copy := CellsOf(input), CellsOf(copied);
    forall i | 0 <= i < n ensures copy[i] == WithSurface(cells)[i] {
      assert forall k :: 1 <= k < FULL_LEVELS ==> copy[i][k] == cells[i][k - 1];
    }
  }

  // ---------------------------------------------------------------------------
  // Reading: from a container into a field
  // ---------------------------------------------------------------------------

  /** The container position the reader takes for point i and field level j. */
  function Source(m: Map, i: nat, j: nat, skip: nat): nat
    requires i < |m|
  {
    Flat(m[i], j + skip, |m|)
  }

  ghost predicate AllWithin(m: Map, levels: nat, skip: nat, size: nat) {
    forall i, j :: 0 <= i < |m| && 0 <= j < levels ==> Source(m, i, j, skip) < size
  }

  /** Rows 0..|m| of the field hold the container's values, the other rows are kept. */
  ghost predicate Decodes(cells: Cells, before: Cells, data: seq<real>, m: Map, levels: nat, skip: nat) {
    && |m| <= |before| && Shaped(before, |before|, levels) && Shaped(cells, |before|, levels)
    && (forall i, j :: 0 <= i < |m| && 0 <= j < levels && Source(m, i, j, skip) < |data| ==>
          cells[i][j] == data[Source(m, i, j, skip)])
    && (forall i :: |m| <= i < |before| ==> cells[i] == before[i])
  }

  /** What becomes of one level from point i on. The reader's check lets an index equal to
      the size pass, and then reads past the end; a larger one is an exception. */
  function LevelOutcome(m: Map, j: nat, skip: nat, size: nat, i: nat): Outcome
    requires i <= |m|
    decreases |m| - i
  {
    if i == |m| then Done
    else if Source(m, i, j, skip) == size then Undefined
    else if Source(m, i, j, skip) > size then Thrown
    else LevelOutcome(m, j, skip, size, i + 1)
  }

  /** What becomes of all levels from level j on. */
  function ReadOutcome(m: Map, levels: nat, skip: nat, size: nat, j: nat): Outcome
    decreases levels - j
  {
    if j >= levels then Done
    else if LevelOutcome(m, j, skip, size, 0) != Done then LevelOutcome(m, j, skip, size, 0)
    else ReadOutcome(m, levels, skip, size, j + 1)
  }

  /** The inner loop, for one level. */
  method ReadLevel(field: array2<real>, dataVec: seq<real>, m: Map, j: nat, skip: nat) returns (r: Outcome)
    requires |m| <= field.Length0 && j < field.Length1
    modifies field
    ensures r == LevelOutcome(m, j, skip, |dataVec|, 0)
    ensures r.Done? ==> forall i :: 0 <= i < |m| ==>
              Source(m, i, j, skip) < |dataVec| && field[i, j] == dataVec[Source(m, i, j, skip)]
    ensures forall i, k :: 0 <= i < field.Length0 && 0 <= k < field.Length1 && (k != j || i >= |m|) ==>
              field[i, k] == old(field[i, k])
  {
    for i := 0 to |m|
      invariant LevelOutcome(m, j, skip, |dataVec|, 0) == LevelOutcome(m, j, skip, |dataVec|, i)
      invariant forall h :: 0 <= h < i ==>
                  Source(m, h, j, skip) < |dataVec| && field[h, j] == dataVec[Source(m, h, j, skip)]
      invariant forall h, k :: 0 <= h < field.Length0 && 0 <= k < field.Length1 && (k != j || h >= i) ==>
                  field[h, k] == old(field[h, k])
    {
      var index := m[i] + (j + skip) * |m|;
      assert index == Source(m, i, j, skip);
      if index <= |dataVec| {
        if index == |dataVec| { return Undefined; }
        field[i, j] := dataVec[index];
      } else {
        return Thrown;
      }
    }
    return Done;
  }

  /** The first loop, over a container that has a surface level: it counts levels from 1. */
  method ReadAboveSurface(field: array2<real>, dataVec: seq<real>, m: Map) returns (r: Outcome)
    requires |m| <= field.Length0 && field.Length1 == HALF_LEVELS
    modifies field
    ensures r == ReadOutcome(m, HALF_LEVELS, 1, |dataVec|, 0)
    ensures r.Done? ==> Decodes(CellsOf(field), old(CellsOf(field)), dataVec, m, HALF_LEVELS, 1)
  {
    ghost var was := CellsOf(field);
    for j := 1 to FULL_LEVELS
      invariant ReadOutcome(m, HALF_LEVELS, 1, |dataVec|, 0) == ReadOutcome(m, HALF_LEVELS, 1, |dataVec|, j - 1)
      invariant forall i, k :: 0 <= i < |m| && 0 <= k < j - 1 ==>
                  Source(m, i, k, 1) < |dataVec| && field[i, k] == dataVec[Source(m, i, k, 1)]
      invariant forall i, k :: |m| <= i < field.Length0 && 0 <= k < HALF_LEVELS ==> field[i, k] == was[i][k]
    {
      r := ReadLevel(field, dataVec, m, j - 1, 1);
      if !r.Done? { return; }
    }
    return Done;
  }

  /** The second loop, over all levels. */
  method ReadLevels(field: array2<real>, dataVec: seq<real>, m: Map) returns (r: Outcome)
    requires |m| <= field.Length0
    modifies field
    ensures r == ReadOutcome(m, field.Length1, 0, |dataVec|, 0)
    ensures r.Done? ==> Decodes(CellsOf(field), old(CellsOf(field)), dataVec, m, field.Length1, 0)
  {
    ghost var was, numLevels := CellsOf(field), field.Length1;
    for j := 0 to field.Length1
      invariant ReadOutcome(m, numLevels, 0, |dataVec|, 0) == ReadOutcome(m, numLevels, 0, |dataVec|, j)
      invariant forall i, k :: 0 <= i < |m| && 0 <= k < j ==>
                  Source(m, i, k, 0) < |dataVec| && field[i, k] == dataVec[Source(m, i, k, 0)]
      invariant forall i, k :: |m| <= i < field.Length0 && 0 <= k < numLevels ==> field[i, k] == was[i][k]
    {
      r := ReadLevel(field, dataVec, m, j, 0);
      if !r.Done? { return; }
    }
    return Done;
  }

  /** How many container levels the reader passes over. */
  function Skip(noFirstLevel: bool, isLfricConvention: bool, levels: nat): nat {
    if isLfricConvention && noFirstLevel && levels == HALF_LEVELS then 1 else 0
  }

  method PopulateField(field: array2<real>, dataVec: seq<real>, lfricToAtlasMap: Map,
                       noFirstLevel: bool, isLfricConvention: bool) returns (r: Outcome)
    requires |lfricToAtlasMap| <= field.Length0
    modifies field
    ensures noFirstLevel && field.Length1 == FULL_LEVELS ==> r.Thrown? && CellsOf(field) == old(CellsOf(field))
    ensures !(noFirstLevel && field.Length1 == FULL_LEVELS) ==>
              var skip := Skip(noFirstLevel, isLfricConvention, field.Length1);
              && r == ReadOutcome(lfricToAtlasMap, field.Length1, skip, |dataVec|, 0)
              && (r.Done? ==>
                  Decodes(CellsOf(field), old(CellsOf(field)), dataVec, lfricToAtlasMap, field.Length1, skip))
  {
    var m, numLevels := lfricToAtlasMap, field.Length1;
    if noFirstLevel && numLevels == FULL_LEVELS {
      return Thrown;
    } else if isLfricConvention && noFirstLevel && numLevels == HALF_LEVELS {
      r := ReadAboveSurface(field, dataVec, m);
    } else {
      r := ReadLevels(field, dataVec, m);
    }
  }

  /** The first point from i on whose index is not in bounds decides. */
  lemma {:induction false} FirstOutside(m: Map, j: nat, skip: nat, size: nat, i: nat, k: nat)
    requires i <= k < |m| && Source(m, k, j, skip) >= size
    requires forall h :: i <= h < k ==> Source(m, h, j, skip) < size
    ensures LevelOutcome(m, j, skip, size, i) == if Source(m, k, j, skip) == size then Undefined else Thrown
    decreases k - i
  {
    if i < k { FirstOutside(m, j, skip, size, i + 1, k); }
  }

  lemma {:induction false} LevelDoneIff(m: Map, j: nat, skip: nat, size: nat, i: nat)
    requires i <= |m|
    ensures LevelOutcome(m, j, skip, size, i).Done? <==> forall h :: i <= h < |m| ==> Source(m, h, j, skip) < size
    decreases |m| - i
  {
    if i < |m| { LevelDoneIff(m, j, skip, size, i + 1); }
  }

  /** Reading is done exactly when every access is in bounds. */
  lemma {:induction false} ReadDoneIff(m: Map, levels: nat, skip: nat, size: nat, j: nat)
    ensures ReadOutcome(m, levels, skip, size, j).Done? <==>
            forall i, k :: 0 <= i < |m| && j <= k < levels ==> Source(m, i, k, skip) < size
    decreases levels - j
  {
    if j < levels {
      LevelDoneIff(m, j, skip, size, 0);
      ReadDoneIff(m, levels, skip, size, j + 1);
    }
  }

  /** Levels that are in bounds do not decide. */
  lemma {:induction false} ReadOutcomeFrom(m: Map, levels: nat, skip: nat, size: nat, j: nat, k: nat)
    requires j <= k <= levels && forall h, i :: j <= h < k && 0 <= i < |m| ==> Source(m, i, h, skip) < size
    ensures ReadOutcome(m, levels, skip, size, j) == ReadOutcome(m, levels, skip, size, k)
    decreases k - j
  {
    if j < k {
      LevelDoneIff(m, j, skip, size, 0);
      ReadOutcomeFrom(m, levels, skip, size, j + 1, k);
    }
  }

  /** For a permutation every access is in bounds exactly when the container holds every
      level the reader uses. */
  lemma EnoughDataIff(m: Map, levels: nat, skip: nat, size: nat)
    requires Permutation(m) && |m| > 0 && levels > 0
    ensures AllWithin(m, levels, skip, size) <==> size >= |m| * (levels + skip)
  {
    var n := |m|;
    if size >= n * (levels + skip) {
      forall i, j | 0 <= i < n && 0 <= j < levels ensures Source(m, i, j, skip) < size {
        FlatBound(m[i], j + skip, n, levels + skip);
      }
    } else {
      Surjective(m, n - 1);
      var i := LastAt(m, n - 1);
      assert Source(m, i, levels - 1, skip) == n - 1 + (levels - 1 + skip) * n == n * (levels + skip) - 1;
    }
  }

  /** With less data than the level of position size needs, the first level is outside. */
  lemma TooShortToStart(m: Map, levels: nat, skip: nat, size: nat)
    requires |m| > 0 && levels > 0 && size < |m| * skip
    ensures ReadOutcome(m, levels, skip, size, 0) == Thrown
  {
    assert Source(m, 0, 0, skip) > size;
  }

  /** Position size is in file level size / n, and it is the points of that level that decide. */
  lemma DecidingLevel(m: Map, levels: nat, skip: nat, size: nat)
    requires InRange(m) && |m| > 0 && |m| * skip <= size < |m| * (levels + skip)
    ensures skip <= size / |m| < levels + skip
    ensures ReadOutcome(m, levels, skip, size, 0) == ReadOutcome(m, levels, skip, size, size / |m| - skip)
  {
    var n, q := |m|, size / |m|;
    FlatSplit(size, n, levels + skip);
    if q < skip { FlatOrder(size % n, q, 0, skip, n); }
    forall h, i | 0 <= h < q - skip && 0 <= i < n ensures Source(m, i, h, skip) < size {
      FlatOrder(m[i], h + skip, size % n, q, n);
    }
    ReadOutcomeFrom(m, levels, skip, size, 0, q - skip);
  }

  /** Every point before the one mapped to position size comes before it in its level. */
  ghost predicate RisesTo(m: Map, place: nat) { forall i :: 0 <= i < LastAt(m, place) && i < |m| ==> m[i] < place }

  /** The first point mapped to that place or behind it. */
  ghost function FirstNotBelow(m: Map, s: nat): (k: nat)
    requires 0 <= LastAt(m, s) < |m| && m[LastAt(m, s)] == s
    ensures k <= LastAt(m, s) && m[k] >= s && forall i :: 0 <= i < k ==> m[i] < s
  {
    FirstFrom(m, s, 0)
  }

  ghost function FirstFrom(m: Map, s: nat, i: nat): (k: nat)
    requires i <= LastAt(m, s) < |m| && m[LastAt(m, s)] == s
    ensures i <= k <= LastAt(m, s) && m[k] >= s && forall h :: i <= h < k ==> m[h] < s
    decreases |m| - i
  {
    if m[i] >= s then i else FirstFrom(m, s, i + 1)
  }

  lemma RisesToIff(m: Map, s: nat)
    requires Permutation(m) && s < |m|
    ensures 0 <= LastAt(m, s) < |m| && m[LastAt(m, s)] == s
    ensures m[FirstNotBelow(m, s)] == s <==> RisesTo(m, s)
  {
    Surjective(m, s);
    LastAtInjective(m, FirstNotBelow(m, s));
  }

  lemma LevelDecides(m: Map, j: nat, skip: nat, size: nat)
    requires Permutation(m) && |m| > 0 && size / |m| == j + skip
    ensures LevelOutcome(m, j, skip, size, 0) == if RisesTo(m, size % |m|) then Undefined else Thrown
  {
    var n, s := |m|, size % |m|;
    assert size == s + (j + skip) * n;
    RisesToIff(m, s);
    FirstOutside(m, j, skip, size, 0, FirstNotBelow(m, s));
  }

  /** With too little data the reader either throws or reads past the end: past the end if
      and only if the levels passed over are there and, in the level where the data end,
      no point before the one whose value would come next lies behind it. */
  lemma ShortContainerIff(m: Map, levels: nat, skip: nat, size: nat)
    requires Permutation(m) && |m| > 0 && levels > 0 && size < |m| * (levels + skip)
    ensures ReadOutcome(m, levels, skip, size, 0) ==
            if size >= |m| * skip && RisesTo(m, size % |m|) then Undefined else Thrown
  {
    if size < |m| * skip {
      TooShortToStart(m, levels, skip, size);
    } else {
      DecidingLevel(m, levels, skip, size);
      LevelDecides(m, size / |m| - skip, skip, size);
    }
  }

  /** One point and no data: the first read is past the end. */
  lemma PastTheEnd()
    ensures Permutation([0]) && ReadOutcome([0], 1, 0, 0, 0) == Undefined
  {
    assert LevelOutcome([0], 0, 0, 0, 0) == Undefined;
  }

  /** Two points in reverse and no data: an exception. */
  lemma ThrowsInTime()
    ensures Permutation([1, 0]) && ReadOutcome([1, 0], 1, 0, 0, 0) == Thrown
  {
    assert LevelOutcome([1, 0], 0, 0, 0, 0) == Thrown;
  }

  // ---------------------------------------------------------------------------
  // Round trips
  // ---------------------------------------------------------------------------

  /** Writing then reading gives the field back, whatever the target held. */
  lemma ReadAfterWrite(m: Map, cells: Cells, levels: nat, back: Cells, target: Cells)
    requires Permutation(m) && Shaped(cells, |m|, levels) && |target| == |m|
    requires Decodes(back, target, Container(m, cells, levels), m, levels, 0)
    ensures back == cells
  {
    forall i | 0 <= i < |m| ensures back[i] == cells[i] {
      forall j | 0 <= j < levels ensures back[i][j] == cells[i][j] {
        FlatBound(m[i], j, |m|, levels);
      }
    }
  }

  /** The same with the surface level inserted on writing and passed over on reading. */
  lemma ReadAfterWriteWithSurface(m: Map, cells: Cells, levels: nat, back: Cells, target: Cells)
    requires Permutation(m) && Shaped(cells, |m|, levels) && levels > 0 && |target| == |m|
    requires Decodes(back, target, Container(m, WithSurface(cells), levels + 1), m, levels, 1)
    ensures back == cells
  {
    var n, file := |m|, WithSurface(cells);
    forall i | 0 <= i < n ensures back[i] == cells[i] {
      forall j | 0 <= j < levels ensures back[i][j] == cells[i][j] {
        FlatBound(m[i], j + 1, n, levels + 1);
        assert file[i][j + 1] == cells[i][j];
      }
    }
  }

  /** Reading then writing gives the container back. */
  lemma WriteAfterRead(m: Map, data: seq<real>, levels: nat, cells: Cells, target: Cells)
    requires Permutation(m) && |target| == |m| && |data| == |m| * levels
    requires Decodes(cells, target, data, m, levels, 0)
    ensures Container(m, cells, levels) == data
  {
    assert Encodes(data, m, cells, levels);
    EncodingIsUnique(data, Container(m, cells, levels), m, cells, levels);
  }

  /** Reading without and then writing with the surface level keeps every level but the
      lowest, which becomes a copy of the one above. */
  lemma WriteAfterReadWithSurface(m: Map, data: seq<real>, levels: nat, cells: Cells, target: Cells)
    requires Permutation(m) && levels > 0 && |target| == |m| && |data| == |m| * (levels + 1)
    requires Decodes(cells, target, data, m, levels, 1)
    ensures Container(m, WithSurface(cells), levels + 1) == SurfaceCopied(data, |m|)
  {
    var n := |m|;
    var out, file := SurfaceCopied(data, n), WithSurface(cells);
    forall i, j | 0 <= i < n && 0 <= j < levels + 1 && Flat(m[i], j, n) < |out|
      ensures out[Flat(m[i], j, n)] == file[i][j]
    {
      FlatBound(m[i], 1, n, levels + 1);
      if j > 0 { FlatOrder(0, 0, m[i], 1, n); MulOrder(1, j, n); }
    }
    assert Encodes(out, m, file, levels + 1);
    EncodingIsUnique(out, Container(m, file, levels + 1), m, file, levels + 1);
  }

  /** The first n values replaced by the second n. */
  ghost function SurfaceCopied(data: seq<real>, n: nat): (r: seq<real>)
    ensures |r| == |data|
  {
    seq(|data|, x requires 0 <= x < |data| => if x < n && x + n < |data| then data[x + n] else data[x])
  }

  lemma SurfaceCopiedTwice(data: seq<real>, n: nat)
    requires n > 0
    ensures SurfaceCopied(SurfaceCopied(data, n), n) == SurfaceCopied(data, n)
  {
  }

  // ---------------------------------------------------------------------------
  // Do values keep their places on the globe?
  // ---------------------------------------------------------------------------

  /** The map found when each LFRic point coincides with one Atlas point. */
  ghost predicate Coincide<P(!new)>(m: Map, atlas: seq<P>, lfric: seq<P>) {
    && |atlas| == |lfric| == |m| && InRange(m)
    && (forall i, k :: 0 <= i < |m| && 0 <= k < |m| ==> (atlas[i] == lfric[k] <==> i == m[k]))
  }

  ghost predicate Involution(m: Map)
    requires InRange(m)
  {
    forall i :: 0 <= i < |m| ==> m[m[i]] == i
  }

  /** Whatever the data, the reader puts a value into the field cell of the place the
      file gives for it. */
  ghost predicate ReaderKeepsPlaces<P(!new)>(m: Map, atlas: seq<P>, lfric: seq<P>, levels: nat)
    requires |atlas| == |lfric| == |m| && InRange(m)
  {
    forall data: seq<real>, i: nat, k: nat, j: nat ::
      |data| == |m| * levels && i < |m| && k < |m| && j < levels && atlas[i] == lfric[k] ==>
      SameValue(data, Source(m, i, j, 0), Flat(k, j, |m|))
  }

  ghost predicate SameValue(data: seq<real>, x: nat, y: nat) {
    x < |data| && y < |data| && data[x] == data[y]
  }

  /** The reader keeps places exactly when applying the map twice is doing nothing. */
  lemma ReaderKeepsPlacesIff<P(!new)>(m: Map, atlas: seq<P>, lfric: seq<P>, levels: nat)
    requires Coincide(m, atlas, lfric) && levels > 0
    ensures ReaderKeepsPlaces(m, atlas, lfric, levels) <==> Involution(m)
  {
    var n := |m|;
    if ReaderKeepsPlaces(m, atlas, lfric, levels) {
      var data := seq(n * levels, x requires 0 <= x < n * levels => x as real);
      forall k | 0 <= k < n ensures m[m[k]] == k {
        assert atlas[m[k]] == lfric[k];
        assert |data| == n * levels;
        assert SameValue(data, Source(m, m[k], 0, 0), Flat(k, 0, n));
      }
    }
    if Involution(m) {
      forall data: seq<real>, i: nat, k: nat, j: nat |
        |data| == n * levels && i < n && k < n && j < levels && atlas[i] == lfric[k]
        ensures SameValue(data, Source(m, i, j, 0), Flat(k, j, n))
      {
        assert i == m[k] && m[m[k]] == k;
        FlatBound(k, j, n, levels);
      }
    }
  }

  /** Three points in a ring: the map is a permutation that matches every place, and
      yet the reader moves values to other places. */
  lemma RingMovesValues()
    ensures var m, atlas, lfric := [1, 2, 0], [10, 20, 30], [20, 30, 10];
            Permutation(m) && Coincide(m, atlas, lfric) && !ReaderKeepsPlaces(m, atlas, lfric, 1)
  {
    var m: Map := [1, 2, 0];
    assert m[m[0]] == 2;
    ReaderKeepsPlacesIff(m, [10, 20, 30], [20, 30, 10], 1);
  }

  // ---------------------------------------------------------------------------
  // Files in Atlas order
  // ---------------------------------------------------------------------------

  /** The writer's second loop: values in point-by-point order. */
  method PopulateDataVecAtlasOrder(dataVec: array<real>, field: array2<real>, dimensions: (nat, nat))
    requires dimensions.0 <= field.Length0 && dimensions.1 <= field.Length1
    requires dimensions.0 * dimensions.1 <= dataVec.Length
    modifies dataVec
    ensures forall i, j ::
              0 <= i < dimensions.0 && 0 <= j < dimensions.1 && Flat(j, i, dimensions.1) < dataVec.Length ==>
              dataVec[Flat(j, i, dimensions.1)] == field[i, j]
    ensures forall x :: dimensions.0 * dimensions.1 <= x < dataVec.Length ==> dataVec[x] == old(dataVec[x])
  {
    var n, v := dimensions.0, dimensions.1;
    for i := 0 to n
      invariant forall h, k :: 0 <= h < i && 0 <= k < v && Flat(k, h, v) < dataVec.Length ==>
                  dataVec[Flat(k, h, v)] == field[h, k]
      invariant forall x :: n * v <= x < dataVec.Length ==> dataVec[x] == old(dataVec[x])
    {
      for j := 0 to v
        invariant forall h, k :: 0 <= h <= i && 0 <= k < v && (h < i || k < j) && Flat(k, h, v) < dataVec.Length ==>
                    dataVec[Flat(k, h, v)] == field[h, k]
        invariant forall x :: n * v <= x < dataVec.Length ==> dataVec[x] == old(dataVec[x])
      {
        FlatBound(j, i, v, n);
        var index := j + i * v;
        dataVec[index] := field[i, j];
        forall h, k | 0 <= h <= i && 0 <= k < v && Flat(k, h, v) == index ensures h == i && k == j {
          FlatInjective(k, h, j, i, v);
        }
      }
    }
  }

  /** What becomes of point i from level j on, with the same check as above. */
  function PointOutcome(i: nat, n: nat, levels: nat, size: nat, j: nat): Outcome
    decreases levels - j
  {
    if j >= levels then Done
    else if Flat(i, j, n) == size then Undefined
    else if Flat(i, j, n) > size then Thrown
    else PointOutcome(i, n, levels, size, j + 1)
  }

  /** What becomes of all points from point i on. */
  function PointsOutcome(n: nat, levels: nat, size: nat, i: nat): Outcome
    decreases n - i
  {
    if i >= n then Done
    else if PointOutcome(i, n, levels, size, 0) != Done then PointOutcome(i, n, levels, size, 0)
    else PointsOutcome(n, levels, size, i + 1)
  }

  /** The reader's second loop: values in level-by-level order. */
  method PopulateFieldAtlasOrder(field: array2<real>, dataVec: seq<real>, horizontalSize: nat) returns (r: Outcome)
    requires horizontalSize <= field.Length0
    modifies field
    ensures r == PointsOutcome(horizontalSize, field.Length1, |dataVec|, 0)
    ensures r.Done? ==> forall i, j :: 0 <= i < horizontalSize && 0 <= j < field.Length1 ==>
              Flat(i, j, horizontalSize) < |dataVec| && field[i, j] == dataVec[Flat(i, j, horizontalSize)]
    ensures forall i, j :: horizontalSize <= i < field.Length0 && 0 <= j < field.Length1 ==>
              field[i, j] == old(field[i, j])
  {
    var n, levels := horizontalSize, field.Length1;
    for i := 0 to n
      invariant PointsOutcome(n, levels, |dataVec|, 0) == PointsOutcome(n, levels, |dataVec|, i)
      invariant forall h, k :: 0 <= h < i && 0 <= k < levels ==>
                  Flat(h, k, n) < |dataVec| && field[h, k] == dataVec[Flat(h, k, n)]
      invariant forall h, k :: n <= h < field.Length0 && 0 <= k < levels ==> field[h, k] == old(field[h, k])
    {
      for j := 0 to levels
        invariant PointOutcome(i, n, levels, |dataVec|, 0) == PointOutcome(i, n, levels, |dataVec|, j)
        invariant forall h, k :: 0 <= h <= i && 0 <= k < levels && (h < i || k < j) ==>
                    Flat(h, k, n) < |dataVec| && field[h, k] == dataVec[Flat(h, k, n)]
        invariant forall h, k :: n <= h < field.Length0 && 0 <= k < levels ==> field[h, k] == old(field[h, k])
      {
        var index := i + j * n;
        assert index == Flat(i, j, n);
        if index <= |dataVec| {
          if index == |dataVec| { return Undefined; }
          field[i, j] := dataVec[index];
        } else {
          return Thrown;
        }
      }
    }
    return Done;
  }

  /** The first level from j on whose index is not in bounds decides for the point. */
  lemma {:induction false} PointFirstOutside(i: nat, n: nat, levels: nat, size: nat, j: nat, k: nat)
    requires j <= k < levels && Flat(i, k, n) >= size && forall h :: j <= h < k ==> Flat(i, h, n) < size
    ensures PointOutcome(i, n, levels, size, j) == if Flat(i, k, n) == size then Undefined else Thrown
    decreases k - j
  {
    if j < k { PointFirstOutside(i, n, levels, size, j + 1, k); }
  }

  lemma {:induction false} PointDone(i: nat, n: nat, levels: nat, size: nat, j: nat)
    requires forall k :: j <= k < levels ==> Flat(i, k, n) < size
    ensures PointOutcome(i, n, levels, size, j).Done?
    decreases levels - j
  {
    if j < levels { PointDone(i, n, levels, size, j + 1); }
  }

  lemma {:induction false} PointsOutcomeFrom(n: nat, levels: nat, size: nat, i: nat, k: nat)
    requires i <= k <= n && forall h, j :: i <= h < k && 0 <= j < levels ==> Flat(h, j, n) < size
    ensures PointsOutcome(n, levels, size, i) == PointsOutcome(n, levels, size, k)
    decreases k - i
  {
    if i < k {
      PointDone(i, n, levels, size, 0);
      PointsOutcomeFrom(n, levels, size, i + 1, k);
    }
  }

  lemma StepUp(h: nat, n: nat)
    ensures (h + 1) * n == h * n + n
  {
  }

  lemma MultipleBelow(h: nat, a: nat, r: nat, n: nat)
    requires r < n && h < (if r == 0 then a else a + 1)
    ensures h * n < a * n + r
  {
    if h < a {
      MulOrder(h + 1, a, n);
      StepUp(h, n);
    }
  }

  lemma QuotientBelow(a: nat, r: nat, n: nat, levels: nat)
    requires r < n && levels > 0 && a * n + r <= (levels - 1) * n
    ensures (if r == 0 then a else a + 1) < levels
  {
    StepUp(levels - 1, n);
    MulOrder(levels, a, n);
    MulOrder(levels - 1, a, n);
  }

  /** The level at which the first point passes the end. */
  lemma FirstLevelOutside(n: nat, levels: nat, size: nat) returns (q: nat)
    requires n > 0 && levels > 0 && size <= (levels - 1) * n
    ensures q < levels && Flat(0, q, n) >= size && (Flat(0, q, n) == size <==> size % n == 0)
    ensures forall h :: 0 <= h < q ==> Flat(0, h, n) < size
  {
    var a, r := size / n, size % n;
    assert size == a * n + r;
    q := if r == 0 then a else a + 1;
    StepUp(a, n);
    QuotientBelow(a, r, n, levels);
    forall h | 0 <= h < q ensures Flat(0, h, n) < size { MultipleBelow(h, a, r, n); }
  }

  /** Data that do not reach the last level: the first point decides. */
  lemma FirstPointDecides(n: nat, levels: nat, size: nat)
    requires n > 0 && levels > 0 && size <= (levels - 1) * n
    ensures PointsOutcome(n, levels, size, 0) == if size % n == 0 then Undefined else Thrown
  {
    var q := FirstLevelOutside(n, levels, size);
    PointFirstOutside(0, n, levels, size, 0, q);
  }

  /** Data that end in the last level: the point where they end decides. */
  lemma LastLevelDecides(n: nat, levels: nat, size: nat)
    requires n > 0 && levels > 0 && (levels - 1) * n < size < levels * n
    ensures PointsOutcome(n, levels, size, 0) == Undefined
  {
    var last, r := levels - 1, size - (levels - 1) * n;
    forall h, j | 0 <= h <= r && 0 <= j < levels && (h < r || j < last) ensures Flat(h, j, n) < size {
      MulOrder(j, last, n);
      if j < last { FlatOrder(h, j, 0, last, n); }
    }
    assert levels * n == last * n + n;
    PointsOutcomeFrom(n, levels, size, 0, r);
    PointFirstOutside(r, n, levels, size, 0, last);
  }

  /** The second loop is done exactly when all data are there. With less it reads past the
      end if and only if the data end with a level or within the last one, and throws
      otherwise. */
  lemma AtlasOrderOutcomeIff(n: nat, levels: nat, size: nat)
    requires n > 0 && levels > 0
    ensures PointsOutcome(n, levels, size, 0) ==
            if size >= n * levels then Done
            else if size % n == 0 || size > (levels - 1) * n then Undefined
            else Thrown
  {
    if size >= n * levels {
      forall h, j | 0 <= h < n && 0 <= j < levels ensures Flat(h, j, n) < size { FlatBound(h, j, n, levels); }
      PointsOutcomeFrom(n, levels, size, 0, n);
    } else if size <= (levels - 1) * n {
      FirstPointDecides(n, levels, size);
    } else {
      LastLevelDecides(n, levels, size);
    }
  }

  /** The two orders agree on every cell exactly when there is at most one point or at
      most one level. The second writer loop stores by point, while the dimensions it
      declares and the second reader loop are by level. */
  lemma OrdersAgreeIff(points: nat, levels: nat)
    requires points > 0 && levels > 0
    ensures (forall i, j :: 0 <= i < points && 0 <= j < levels ==> Flat(j, i, levels) == Flat(i, j, points)) <==>
            points == 1 || levels == 1
  {
    if points > 1 && levels > 1 {
      assert Flat(1, 0, levels) == 1 && Flat(0, 1, points) == points;
      assert Flat(0, 1, levels) == levels && Flat(1, 0, points) == 1;
    }
  }
}
