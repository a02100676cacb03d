/** Reading one time step of a variable: the start and count vectors built by
    readDatumAtTime (src/monio/Reader.cc), against what a NetCDF hyperslab read
    returns from row-major data of any rank. */
module Hyperslab {

  type Dimensions = seq<(string, nat)>

  function Product(sizes: seq<nat>): nat {
    if sizes == [] then 1 else sizes[0] * Product(sizes[1..])
  }

  function Sizes(dims: Dimensions): (s: seq<nat>)
    ensures |s| == |dims| && forall i :: 0 <= i < |dims| ==> s[i] == dims[i].1
  {
    seq(|dims|, i requires 0 <= i < |dims| => dims[i].1)
  }

  function TotalSize(dims: Dimensions): nat { Product(Sizes(dims)) }

  lemma TotalSizeCons(dims: Dimensions)
    requires dims != []
    ensures TotalSize(dims) == dims[0].1 * TotalSize(dims[1..])
  {
    assert Sizes(dims)[1..] == Sizes(dims[1..]);
  }

  /** A read is in range when it stays within every dimension. */
  predicate InRange(sizes: seq<nat>, start: seq<nat>, count: seq<nat>) {
    |start| == |count| == |sizes| && forall i :: 0 <= i < |sizes| ==> start[i] + count[i] <= sizes[i]
  }

  /** The values of a hyperslab, in row-major order: for each index of the first
      dimension in turn, the hyperslab of the rest. */
  function Slab(data: seq<real>, sizes: seq<nat>, start: seq<nat>, count: seq<nat>): seq<real>
    requires InRange(sizes, start, count) && |data| == Product(sizes)
    decreases |sizes|, 1, 0
  {
    if sizes == [] then data else SlabRows(data, sizes, start, count, start[0], start[0] + count[0])
  }

  function SlabRows(data: seq<real>, sizes: seq<nat>, start: seq<nat>, count: seq<nat>, from: nat, to: nat): seq<real>
    requires InRange(sizes, start, count) && |data| == Product(sizes) && sizes != []
    requires from <= to <= sizes[0]
    decreases |sizes|, 0, to - from
  {
    if from == to then []
    else
      var inner := Product(sizes[1..]);
      RowBounds(sizes, from);
      Slab(data[from * inner..(from + 1) * inner], sizes[1..], start[1..], count[1..])
        + SlabRows(data, sizes, start, count, from + 1, to)
  }

  lemma RowBounds(sizes: seq<nat>, row: nat)
    requires sizes != [] && row < sizes[0]
    ensures var inner := Product(sizes[1..]);
            0 <= row * inner <= (row + 1) * inner <= Product(sizes) && (row + 1) * inner - row * inner == inner
  {
    RowFits(row, sizes[0], Product(sizes[1..]));
  }

  lemma RowFits(row: nat, rows: nat, inner: nat)
    ensures (row + 1) * inner == row * inner + inner
    ensures row < rows ==> (row + 1) * inner <= rows * inner
  {
  }

  /** A row is everything at that index when the read covers the other dimensions. */
  ghost predicate Covers(sizes: seq<nat>, start: seq<nat>, count: seq<nat>, from: nat) {
    |start| == |count| == |sizes| && forall i :: from <= i < |sizes| ==> start[i] == 0 && count[i] == sizes[i]
  }

  lemma {:induction false} FullSlab(data: seq<real>, sizes: seq<nat>, start: seq<nat>, count: seq<nat>)
    requires Covers(sizes, start, count, 0) && |data| == Product(sizes)
    ensures Slab(data, sizes, start, count) == data
    decreases |sizes|, 1, 0
  {
    if sizes != [] {
      FullRows(data, sizes, start, count, 0, sizes[0]);
      assert sizes[0] * Product(sizes[1..]) == |data|;
      assert data[0..|data|] == data;
    }
  }

  lemma {:induction false} FullRows(data: seq<real>, sizes: seq<nat>, start: seq<nat>, count: seq<nat>, from: nat,
                                    to: nat)
    requires Covers(sizes, start, count, 1) && InRange(sizes, start, count) && |data| == Product(sizes) && sizes != []
    requires from <= to <= sizes[0]
    ensures var inner := Product(sizes[1..]);
            from * inner <= to * inner <= |data| &&
            SlabRows(data, sizes, start, count, from, to) == data[from * inner..to * inner]
    decreases |sizes|, 0, to - from
  {
    var inner := Product(sizes[1..]);
    RowsFit(from, to, sizes[0], inner);
    if from < to {
      RowBounds(sizes, from);
      FullSlab(data[from * inner..(from + 1) * inner], sizes[1..], start[1..], count[1..]);
      FullRows(data, sizes, start, count, from + 1, to);
      Joined(data, from * inner, (from + 1) * inner, to * inner);
    }
  }

  lemma RowsFit(from: nat, to: nat, rows: nat, inner: nat)
    requires from <= to <= rows
    ensures from * inner <= to * inner <= rows * inner
  {
  }

  lemma Joined(data: seq<real>, i: nat, j: nat, k: nat)
    requires i <= j <= k <= |data|
    ensures data[i..j] + data[j..k] == data[i..k]
  {
  }

  // ---------------------------------------------------------------------------
  // readDatumAtTime
  // ---------------------------------------------------------------------------

  datatype Request = Request(start: seq<nat>, count: seq<nat>, size: nat)

  function WithoutTime(dims: Dimensions, timeDim: string): Dimensions {
    if dims == [] then []
    else if dims[|dims| - 1].0 != timeDim then WithoutTime(dims[..|dims| - 1], timeDim) + [dims[|dims| - 1]]
    else WithoutTime(dims[..|dims| - 1], timeDim)
  }

  /** The start and count vectors for step t of a variable whose other sizes are rest. */
  function StepStart(t: nat, rest: seq<nat>): (s: seq<nat>)
    ensures |s| == |rest| + 1 && s[0] == t && forall i :: 1 <= i < |s| ==> s[i] == 0
  {
    [t] + seq(|rest|, _ => 0)
  }

  /** The loop over the dimensions: time first, then all others in full. */
  method BuildRequest(dimensions: Dimensions, timeStep: nat, timeDim: string) returns (r: Request)
    ensures var rest := Sizes(WithoutTime(dimensions, timeDim));
            r == Request(StepStart(timeStep, rest), [1] + rest, Product(rest))
  {
    var startVec, countVec := [timeStep], [1];
    var varSizeNoTime: nat := 1;
    for i := 0 to |dimensions|
      invariant var rest := Sizes(WithoutTime(dimensions[..i], timeDim));
                startVec == StepStart(timeStep, rest) && countVec == [1] + rest && varSizeNoTime == Product(rest)
    {
      ghost var before := Sizes(WithoutTime(dimensions[..i], timeDim));
      assert dimensions[..i + 1][..i] == dimensions[..i];
      var dimPair := dimensions[i];
      if dimPair.0 != timeDim {
        varSizeNoTime := varSizeNoTime * dimPair.1;
        startVec := startVec + [0];
        countVec := countVec + [dimPair.1];
        ProductSnoc(before, dimPair.1);
        assert Sizes(WithoutTime(dimensions[..i + 1], timeDim)) == before + [dimPair.1];
      }
    }
    assert dimensions[..|dimensions|] == dimensions;
    r := Request(startVec, countVec, varSizeNoTime);
  }

  lemma {:induction false} ProductSnoc(sizes: seq<nat>, x: nat)
    ensures Product(sizes + [x]) == Product(sizes) * x
  {
    if sizes == [] {
      assert (sizes + [x])[1..] == [];
    } else {
      ProductSnoc(sizes[1..], x);
      assert (sizes + [x])[1..] == sizes[1..] + [x];
      assert sizes[0] * (Product(sizes[1..]) * x) == sizes[0] * Product(sizes[1..]) * x;
    }
  }

  lemma ProductOfTwo(x: nat, y: nat)
    ensures Product([x, y]) == x * y
  {
    assert [x, y][1..] == [y] && [y][1..] == [];
    assert Product([y]) == y * Product([]);
  }

  ghost predicate UniqueNames(dims: Dimensions) {
    forall i, j :: 0 <= i < j < |dims| ==> dims[i].0 != dims[j].0
  }

  lemma {:induction false} OthersKept(dims: Dimensions, timeDim: string)
    requires forall i :: 0 <= i < |dims| ==> dims[i].0 != timeDim
    ensures WithoutTime(dims, timeDim) == dims
  {
    if dims != [] { OthersKept(dims[..|dims| - 1], timeDim); }
  }

  lemma {:induction false} TimeFirst(dims: Dimensions, timeDim: string)
    requires UniqueNames(dims) && dims != [] && dims[0].0 == timeDim
    ensures WithoutTime(dims, timeDim) == dims[1..]
  {
    if |dims| > 1 {
      TimeFirst(dims[..|dims| - 1], timeDim);
      assert dims[..|dims| - 1][1..] + [dims[|dims| - 1]] == dims[1..];
    } else {
      assert dims[..0] == [];
    }
  }

  lemma StepIsSlice(sizes: seq<nat>, t: nat, data: seq<real>)
    requires sizes != [] && t < sizes[0] && |data| == Product(sizes)
    ensures var rest, size := sizes[1..], Product(sizes[1..]);
            && InRange(sizes, StepStart(t, rest), [1] + rest)
            && 0 <= t * size <= (t + 1) * size <= |data|
            && Slab(data, sizes, StepStart(t, rest), [1] + rest) == data[t * size..(t + 1) * size]
  {
    RowBounds(sizes, t);
    FullRows(data, sizes, StepStart(t, sizes[1..]), [1] + sizes[1..], t, t + 1);
  }

  /** For a variable of any rank whose first dimension is time, the request stays in
      range and returns exactly the given step's share of the full data. */
  lemma TimeStepIsSlice(dims: Dimensions, timeDim: string, t: nat, data: seq<real>)
    requires UniqueNames(dims) && dims != [] && dims[0].0 == timeDim && t < dims[0].1
    requires |data| == TotalSize(dims)
    ensures var rest := Sizes(WithoutTime(dims, timeDim));
            && InRange(Sizes(dims), StepStart(t, rest), [1] + rest)
            && 0 <= t * Product(rest) <= (t + 1) * Product(rest) <= |data|
            && Slab(data, Sizes(dims), StepStart(t, rest), [1] + rest) ==
              data[t * Product(rest)..(t + 1) * Product(rest)]
  {
    TimeFirst(dims, timeDim);
    assert Sizes(dims)[1..] == Sizes(WithoutTime(dims, timeDim));
    StepIsSlice(Sizes(dims), t, data);
  }

  /** The container has the size of the request, and the steps share the full data out. */
  lemma TimeStepsShareOut(dims: Dimensions, timeDim: string)
    requires UniqueNames(dims) && dims != [] && dims[0].0 == timeDim
    ensures var rest := Sizes(WithoutTime(dims, timeDim));
            Product([1] + rest) == Product(rest) && dims[0].1 * Product(rest) == TotalSize(dims)
  {
    TimeFirst(dims, timeDim);
    var rest := Sizes(WithoutTime(dims, timeDim));
    assert Sizes(dims)[1..] == rest && ([1] + rest)[1..] == rest;
  }

  // ---------------------------------------------------------------------------
  // Time at any position
  // ---------------------------------------------------------------------------

  function Zeros(n: nat): (r: seq<nat>)
    ensures |r| == n && forall i :: 0 <= i < n ==> r[i] == 0
  {
    seq(n, _ => 0)
  }

  /** The values of step t: that step in the time dimension, everything else in full. */
  function StepOf(data: seq<real>, a: seq<nat>, times: nat, b: seq<nat>, t: nat): seq<real>
    requires t < times && |data| == Product(a + [times] + b)
  {
    Slab(data, a + [times] + b, Zeros(|a|) + [t] + Zeros(|b|), a + [1] + b)
  }

  /** The request for step t is in range and returns just that step. */
  ghost predicate ReturnsStep(data: seq<real>, a: seq<nat>, times: nat, b: seq<nat>, t: nat)
    requires t < times && |data| == Product(a + [times] + b)
  {
    && InRange(a + [times] + b, StepStart(t, a + b), [1] + (a + b))
    && Slab(data, a + [times] + b, StepStart(t, a + b), [1] + (a + b)) == StepOf(data, a, times, b, t)
  }

  /** So it is for every step and all data. */
  ghost predicate AlwaysReturnsStep(a: seq<nat>, times: nat, b: seq<nat>) {
    forall data: seq<real>, t: nat :: t < times && |data| == Product(a + [times] + b) ==>
      ReturnsStep(data, a, times, b, t)
  }

  ghost predicate AllAre(a: seq<nat>, x: nat) { forall i :: 0 <= i < |a| ==> a[i] == x }

  lemma {:induction false} ProductConcat(a: seq<nat>, b: seq<nat>)
    ensures Product(a + b) == Product(a) * Product(b)
  {
    if a == [] {
      assert a + b == b;
    } else {
      ProductConcat(a[1..], b);
      assert (a + b)[1..] == a[1..] + b;
      assert a[0] * (Product(a[1..]) * Product(b)) == a[0] * Product(a[1..]) * Product(b);
    }
  }

  lemma {:induction false} ProductIsZeroIff(sizes: seq<nat>)
    ensures Product(sizes) == 0 <==> 0 in sizes
  {
    if sizes != [] {
      ProductIsZeroIff(sizes[1..]);
      assert sizes == [sizes[0]] + sizes[1..];
      FactorIsZero(sizes[0], Product(sizes[1..]));
    }
  }

  lemma FactorIsZero(x: nat, y: nat)
    ensures x * y == 0 <==> x == 0 || y == 0
  {
  }

  /** So many rows of a size together. */
  function RowsSize(rows: nat, size: nat): nat { if rows == 0 then 0 else size + RowsSize(rows - 1, size) }

  lemma {:induction false} RowsSizeIs(rows: nat, size: nat)
    ensures RowsSize(rows, size) == rows * size
  {
    if rows > 0 { RowsSizeIs(rows - 1, size); }
  }

  lemma {:induction false} SlabLength(data: seq<real>, sizes: seq<nat>, start: seq<nat>, count: seq<nat>)
    requires InRange(sizes, start, count) && |data| == Product(sizes)
    ensures |Slab(data, sizes, start, count)| == Product(count)
    decreases |sizes|, 1, 0
  {
    if sizes != [] {
      RowsLength(data, sizes, start, count, start[0], start[0] + count[0]);
      RowsSizeIs(count[0], Product(count[1..]));
    }
  }

  /** The hyperslab of the rest within one row. */
  function Row(data: seq<real>, sizes: seq<nat>, start: seq<nat>, count: seq<nat>, row: nat): seq<real>
    requires InRange(sizes, start, count) && |data| == Product(sizes) && sizes != [] && row < sizes[0]
    decreases |sizes|, 0, 0
  {
    RowBounds(sizes, row);
    Slab(data[row * Product(sizes[1..])..(row + 1) * Product(sizes[1..])], sizes[1..], start[1..], count[1..])
  }

  lemma FirstRow(data: seq<real>, sizes: seq<nat>, start: seq<nat>, count: seq<nat>, from: nat, to: nat)
    requires InRange(sizes, start, count) && |data| == Product(sizes) && sizes != [] && from < to <= sizes[0]
    ensures SlabRows(data, sizes, start, count, from, to) ==
            Row(data, sizes, start, count, from) + SlabRows(data, sizes, start, count, from + 1, to)
  {
  }

  lemma {:induction false} RowLength(data: seq<real>, sizes: seq<nat>, start: seq<nat>, count: seq<nat>, row: nat)
    requires InRange(sizes, start, count) && |data| == Product(sizes) && sizes != [] && row < sizes[0]
    ensures |Row(data, sizes, start, count, row)| == Product(count[1..])
    decreases |sizes|, 0, 0
  {
    RowBounds(sizes, row);
    SlabLength(data[row * Product(sizes[1..])..(row + 1) * Product(sizes[1..])], sizes[1..], start[1..], count[1..]);
  }

  lemma {:induction false} RowsLength(data: seq<real>, sizes: seq<nat>, start: seq<nat>, count: seq<nat>, from: nat,
                                      to: nat)
    requires InRange(sizes, start, count) && |data| == Product(sizes) && sizes != [] && from <= to <= sizes[0]
    ensures |SlabRows(data, sizes, start, count, from, to)| == RowsSize(to - from, Product(count[1..]))
    decreases |sizes|, 0, to - from + 1
  {
    if from < to {
      RowLength(data, sizes, start, count, from);
      RowsLength(data, sizes, start, count, from + 1, to);
      FirstRow(data, sizes, start, count, from, to);
    }
  }

  /** Time first, or no more than one of anything before it: the request is for the step. */
  lemma RequestIsStep(data: seq<real>, a: seq<nat>, times: nat, b: seq<nat>, t: nat)
    requires t < times && |data| == Product(a + [times] + b)
    requires a == [] || (times == 1 && AllAre(a, 1))
    ensures ReturnsStep(data, a, times, b, t)
  {
    if a == [] {
      assert a + [times] + b == [times] + b && a + b == b && a + [1] + b == [1] + b;
      assert Zeros(|a|) + [t] + Zeros(|b|) == StepStart(t, b);
    } else {
      assert [1] + (a + b) == a + [1] + b;
      assert StepStart(t, a + b) == Zeros(|a|) + [t] + Zeros(|b|);
    }
  }

  lemma EqualSizesInRange(a: seq<nat>, times: nat, b: seq<nat>, t: nat)
    requires t < times && AllAre(a, times)
    ensures InRange(a + [times] + b, StepStart(t, a + b), [1] + (a + b))
  {
  }

  /** Without data before and after time there is nothing to return. */
  lemma NothingToReturn(data: seq<real>, a: seq<nat>, times: nat, b: seq<nat>, t: nat)
    requires t < times && |data| == Product(a + [times] + b) && AllAre(a, times) && 0 in b
    ensures ReturnsStep(data, a, times, b, t)
  {
    var sizes := a + [times] + b;
    EqualSizesInRange(a, times, b, t);
    SlabLength(data, sizes, StepStart(t, a + b), [1] + (a + b));
    SlabLength(data, sizes, Zeros(|a|) + [t] + Zeros(|b|), a + [1] + b);
    ProductIsZeroIff([1] + (a + b));
    ProductIsZeroIff(a + [1] + b);
  }

  /** Every step is in range only if all sizes before time are the number of times: each
      size bounds the one before it. */
  lemma {:induction false} SizesAreEqual(a: seq<nat>, times: nat, b: seq<nat>, i: nat)
    requires times > 0 && i < |a| && InRange(a + [times] + b, StepStart(times - 1, a + b), [1] + (a + b))
    ensures times <= a[i]
  {
    var sizes, start, count := a + [times] + b, StepStart(times - 1, a + b), [1] + (a + b);
    if i == 0 {
      assert start[0] + count[0] <= sizes[0];
    } else {
      SizesAreEqual(a, times, b, i - 1);
      assert count[i] == a[i - 1] && start[i] + count[i] <= sizes[i];
    }
  }

  lemma {:induction false} SizesBelow(a: seq<nat>, times: nat, b: seq<nat>, i: nat)
    requires times > 0 && i < |a| && InRange(a + [times] + b, StepStart(times - 1, a + b), [1] + (a + b))
    ensures a[i] <= times
    decreases |a| - i
  {
    var sizes, start, count := a + [times] + b, StepStart(times - 1, a + b), [1] + (a + b);
    assert count[i + 1] == a[i] && start[i + 1] + count[i + 1] <= sizes[i + 1];
    if i + 1 < |a| { SizesBelow(a, times, b, i + 1); }
  }

  lemma FirstOfRow(data: seq<real>, times: nat, b: seq<nat>)
    requires times > 0 && |data| == Product([times] + b)
    ensures Product(b) <= |data| && Slab(data, [times] + b, StepStart(0, b), [1] + b) == data[..Product(b)]
  {
    assert ([times] + b)[1..] == b;
    StepIsSlice([times] + b, 0, data);
  }

  lemma TailsOfTwo(x: nat, times: nat, b: seq<nat>)
    requires times > 0
    ensures ([x, times] + b)[1..] == [times] + b && ([x, 1] + b)[1..] == [1] + b
    ensures Zeros(2 + |b|)[1..] == StepStart(0, b)
    ensures ([x, times] + b)[0] == x && InRange([x, times] + b, Zeros(2 + |b|), [x, 1] + b)
  {
  }

  /** With one dimension before time, each row of a step is the start of a row of the data. */
  lemma RowOfStep(data: seq<real>, sizes: seq<nat>, start: seq<nat>, count: seq<nat>, times: nat, b: seq<nat>, row: nat)
    requires sizes != [] && row < sizes[0] && times > 0 && |data| == Product(sizes) && InRange(sizes, start, count)
    requires sizes[1..] == [times] + b && start[1..] == StepStart(0, b) && count[1..] == [1] + b
    ensures var inner := Product([times] + b);
            && Product(b) <= inner && 0 <= row * inner <= (row + 1) * inner <= |data| &&
              (row + 1) * inner - row * inner == inner
            && Row(data, sizes, start, count, row) == data[row * inner..(row + 1) * inner][..Product(b)]
  {
    RowBounds(sizes, row);
    FirstOfRow(data[row * Product([times] + b)..(row + 1) * Product([times] + b)], times, b);
  }

  lemma TimesBySize(times: nat, b: seq<nat>)
    ensures Product([times] + b) == times * Product(b)
  {
    assert ([times] + b)[1..] == b;
  }

  lemma StepOfTwo(data: seq<real>, x: nat, times: nat, b: seq<nat>)
    requires x > 1 && times > 0 && |data| == Product([x] + [times] + b) && Product(b) > 0
    ensures times * Product(b) < |data| && Product(b) < |StepOf(data, [x], times, b, 0)|
    ensures StepOf(data, [x], times, b, 0)[Product(b)] == data[times * Product(b)]
  {
    var sizes, start, count := [x, times] + b, Zeros(2 + |b|), [x, 1] + b;
    assert [x] + [times] + b == sizes && Zeros(1) + [0] + Zeros(|b|) == start && [x] + [1] + b == count;
    TailsOfTwo(x, times, b);
    RowOfStep(data, sizes, start, count, times, b, 0);
    RowOfStep(data, sizes, start, count, times, b, 1);
    FirstRow(data, sizes, start, count, 0, x);
    FirstRow(data, sizes, start, count, 1, x);
    TimesBySize(times, b);
  }

  /** More dimensions before: the step begins with that of the first row. */
  lemma StepBeginsWithRow(data: seq<real>, a: seq<nat>, times: nat, b: seq<nat>)
    requires a != [] && a[0] > 0 && times > 0 && |data| == Product(a + [times] + b)
    ensures var rest := a[1..] + [times] + b;
            Product(rest) <= |data| &&
              StepOf(data[..Product(rest)], a[1..], times, b, 0) <= StepOf(data, a, times, b, 0)
  {
    var sizes, start, count := a + [times] + b, Zeros(|a|) + [0] + Zeros(|b|), a + [1] + b;
    var rest := a[1..] + [times] + b;
    assert sizes[1..] == rest && start[1..] == Zeros(|a[1..]|) + [0] + Zeros(|b|) && count[1..] == a[1..] + [1] + b;
    RowBounds(sizes, 0);
    FirstRow(data, sizes, start, count, 0, a[0]);
    assert data[0..Product(rest)] == data[..Product(rest)];
  }

  /** The second stretch of a step's values stands a whole run of times after the first. */
  lemma {:induction false} StepJumps(data: seq<real>, a: seq<nat>, times: nat, b: seq<nat>)
    requires a != [] && times > 1 && AllAre(a, times) && Product(b) > 0 && |data| == Product(a + [times] + b)
    ensures times * Product(b) < |data| && Product(b) < |StepOf(data, a, times, b, 0)|
    ensures StepOf(data, a, times, b, 0)[Product(b)] == data[times * Product(b)]
    decreases |a|
  {
    if |a| == 1 {
      assert a == [a[0]];
      StepOfTwo(data, a[0], times, b);
    } else {
      StepBeginsWithRow(data, a, times, b);
      StepJumps(data[..Product(a[1..] + [times] + b)], a[1..], times, b);
    }
  }

  /** That of the request stands right after the first. */
  lemma RequestGoesOn(data: seq<real>, a: seq<nat>, times: nat, b: seq<nat>)
    requires a != [] && times > 1 && AllAre(a, times) && Product(b) > 0 && |data| == Product(a + [times] + b)
    requires InRange(a + [times] + b, StepStart(0, a + b), [1] + (a + b))
    ensures var r := Slab(data, a + [times] + b, StepStart(0, a + b), [1] + (a + b));
            Product(b) < |data| && Product(b) < |r| && r[Product(b)] == data[Product(b)]
  {
    var sizes, rest := a + [times] + b, a[1..] + [times] + b;
    assert sizes[1..] == rest && |rest| == |a + b|;
    forall i | 0 <= i < |rest| ensures rest[i] == (a + b)[i] {}
    assert rest == a + b;
    StepIsSlice(sizes, 0, data);
    ProductConcat(a, b);
    ProductIsZeroIff(a);
    AtLeast(a, times, Product(b));
  }

  lemma {:induction false} AtLeast(a: seq<nat>, x: nat, size: nat)
    requires a != [] && x > 1 && AllAre(a, x) && size > 0
    ensures Product(a) * size > size
  {
    if |a| == 1 {
      assert a[1..] == [] && Product(a) == x;
    } else {
      AtLeast(a[1..], x, 1);
      assert Product(a) == x * Product(a[1..]);
    }
    Grows(Product(a), size);
  }

  lemma Grows(x: nat, size: nat)
    requires x > 1 && size > 0
    ensures x * size > size
  {
  }

  /** A request returns its step, whatever step and data, if and only if time comes first,
      or every dimension before it is as long as time and there is but one time or no
      data at all. */
  lemma RequestIsStepIff(a: seq<nat>, times: nat, b: seq<nat>)
    requires times > 0
    ensures AlwaysReturnsStep(a, times, b) <==> a == [] || (AllAre(a, times) && (times == 1 || 0 in b))
  {
    if a == [] || (AllAre(a, times) && (times == 1 || 0 in b)) {
      forall data: seq<real>, t: nat | t < times && |data| == Product(a + [times] + b)
        ensures ReturnsStep(data, a, times, b, t)
      {
        if a == [] || times == 1 {
          RequestIsStep(data, a, times, b, t);
        } else {
          NothingToReturn(data, a, times, b, t);
        }
      }
    }
    if a != [] && AlwaysReturnsStep(a, times, b) {
      OnlyIf(a, times, b);
    }
  }

  lemma OnlyIf(a: seq<nat>, times: nat, b: seq<nat>)
    requires times > 0 && a != [] && AlwaysReturnsStep(a, times, b)
    ensures AllAre(a, times) && (times == 1 || 0 in b)
  {
    var size := Product(a + [times] + b);
    var data := seq(size, x requires 0 <= x < size => x as real);
    assert ReturnsStep(data, a, times, b, times - 1);
    forall i | 0 <= i < |a| ensures a[i] == times {
      SizesAreEqual(a, times, b, i);
      SizesBelow(a, times, b, i);
    }
    if times > 1 && 0 !in b {
      ProductIsZeroIff(b);
      assert ReturnsStep(data, a, times, b, 0);
      StepJumps(data, a, times, b);
      RequestGoesOn(data, a, times, b);
      Grows(times, Product(b));
    }
  }

  lemma {:induction false} WithoutTimeConcat(x: Dimensions, y: Dimensions, timeDim: string)
    ensures WithoutTime(x + y, timeDim) == WithoutTime(x, timeDim) + WithoutTime(y, timeDim)
    decreases |y|
  {
    if y == [] {
      assert x + y == x;
    } else {
      assert (x + y)[..|x + y| - 1] == x + y[..|y| - 1];
      WithoutTimeConcat(x, y[..|y| - 1], timeDim);
    }
  }

  /** The sizes of a variable with time anywhere, and of what its requests list. */
  lemma SizesAround(before: Dimensions, timeDim: string, times: nat, after: Dimensions)
    requires UniqueNames(before + [(timeDim, times)] + after)
    ensures var dims := before + [(timeDim, times)] + after;
            && Sizes(dims) == Sizes(before) + [times] + Sizes(after)
            && Sizes(WithoutTime(dims, timeDim)) == Sizes(before) + Sizes(after)
  {
    var dims := before + [(timeDim, times)] + after;
    forall i | 0 <= i < |before| ensures before[i].0 != timeDim {
      assert dims[i] == before[i] && dims[|before|].0 == timeDim;
    }
    forall i | 0 <= i < |after| ensures after[i].0 != timeDim {
      assert dims[|before| + 1 + i] == after[i] && dims[|before|].0 == timeDim;
    }
    OthersKept(before, timeDim);
    OthersKept(after, timeDim);
    WithoutTimeConcat(before + [(timeDim, times)], after, timeDim);
    WithoutTimeConcat(before, [(timeDim, times)], timeDim);
    assert [(timeDim, times)][..0] == [];
    assert WithoutTime([(timeDim, times)], timeDim) == [];
    assert before + [] == before;
  }

  /** For a variable with time at any position, requests return their steps, whatever step
      and data, if and only if time comes first, or every dimension before it is as long
      as time and there is but one time or no data. */
  lemma TimeAnywhereIff(before: Dimensions, timeDim: string, times: nat, after: Dimensions)
    requires times > 0 && UniqueNames(before + [(timeDim, times)] + after)
    ensures var dims, a, b := before + [(timeDim, times)] + after, Sizes(before), Sizes(after);
            && Sizes(dims) == a + [times] + b && Sizes(WithoutTime(dims, timeDim)) == a + b
            && (AlwaysReturnsStep(a, times, b) <==> before == [] || (AllAre(a, times) && (times == 1 || 0 in b)))
  {
    SizesAround(before, timeDim, times, after);
    RequestIsStepIff(Sizes(before), times, Sizes(after));
  }

  /** With time second, the request for step 0 reads the first place at both times
      instead of both places at the first time. */
  lemma TimeMustComeFirst()
    ensures var dims: Dimensions := [("x", 2), ("time", 2)];
            var rest := Sizes(WithoutTime(dims, "time"));
            rest == [2] && InRange(Sizes(dims), [0, 0], [1] + rest) && TotalSize(dims) == 4 &&
            Slab([1.0, 2.0, 3.0, 4.0], Sizes(dims), [0, 0], [1] + rest) == [1.0, 2.0]
  {
    var dims: Dimensions := [("x", 2), ("time", 2)];
    assert dims[..1] == [("x", 2)] && dims[..1][..0] == [];
    assert WithoutTime(dims[..1], "time") == [("x", 2)];
    assert Sizes(dims) == [2, 2] && [2, 2][1..] == [2] && [2][1..] == [];
    var data := [1.0, 2.0, 3.0, 4.0];
    assert Covers([2, 2], [0, 0], [1, 2], 1);
    assert Sizes(WithoutTime(dims, "time")) == [2];
    FullRows(data, [2, 2], [0, 0], [1, 2], 0, 1);
  }
}
