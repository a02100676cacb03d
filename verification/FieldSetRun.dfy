/** Writing a set of fields in Atlas order: the generated dimensions, the coordinates
    and the loop of writeFieldSet (src/monio/AtlasWriter.cc, src/monio/Monio.cc). */
module FieldSetRun {
  import opened Options
  import opened SortedKeys
  import opened AddIfAbsent
  import opened Store
  import opened NetCdf
  import opened DataOrder
  import opened FieldWriter
  import opened WriteRun
  import opened NearestMap
  import Hyperslab

  // ---------------------------------------------------------------------------
  // Generated names
  // ---------------------------------------------------------------------------

  function Digit(d: nat): char
    requires d < 10
  {
    ('0' as int + d) as char
  }

  function Decimal(n: nat): (s: string)
    ensures s != ""
  {
    if n < 10 then [Digit(n)] else Decimal(n / 10) + [Digit(n % 10)]
  }

  lemma {:induction false} DecimalsDiffer(a: nat, b: nat)
    requires Decimal(a) == Decimal(b)
    ensures a == b
  {
    var s, t := Decimal(a), Decimal(b);
    assert s[|s| - 1] == t[|t| - 1] && s[..|s| - 1] == t[..|t| - 1];
    assert a % 10 == b % 10;
    if a >= 10 && b >= 10 {
      assert Decimal(a / 10) == s[..|s| - 1] && Decimal(b / 10) == t[..|t| - 1];
      DecimalsDiffer(a / 10, b / 10);
    }
  }

  /** The number that a text of digits stands for. */
  function NumberOf(s: string): int {
    if s == "" then 0 else NumberOf(s[..|s| - 1]) * 10 + (s[|s| - 1] as int - '0' as int)
  }

  lemma {:induction false} DecimalIsNumber(n: nat)
    ensures NumberOf(Decimal(n)) == n && forall c :: c in Decimal(n) ==> '0' <= c <= '9'
  {
    var s := Decimal(n);
    if n >= 10 {
      DecimalIsNumber(n / 10);
      assert s[..|s| - 1] == Decimal(n / 10) && s[|s| - 1] == Digit(n % 10);
    } else {
      assert s[..0] == "" && s[0] == Digit(n);
    }
  }

  function DimName(count: nat): string { "dim" + Decimal(count) }

  lemma DimNamesDiffer(a: nat, b: nat)
    requires DimName(a) == DimName(b)
    ensures a == b
  {
    assert DimName(a)[3..] == Decimal(a) && DimName(b)[3..] == Decimal(b);
    DecimalsDiffer(a, b);
  }

  lemma DimNameIs(count: nat)
    ensures var s := DimName(count); |s| > 3 && s[..3] == "dim" && NumberOf(s[3..]) == count
  {
    DecimalIsNumber(count);
    assert DimName(count)[3..] == Decimal(count);
  }

  // ---------------------------------------------------------------------------
  // Dimensions made as they are needed
  // ---------------------------------------------------------------------------

  /** The dimensions of the file being written, and the writer's counter, which is never
      reset. */
  datatype Made = Made(dims: map<string, nat>, count: nat)

  function WithSize(st: Made, size: nat): Made {
    if DimensionName(st.dims, size) != NOT_FOUND then st
    else Made(IfAbsent(st.dims, DimName(st.count), size), st.count + 1)
  }

  ghost predicate IsMade(name: string, count: nat) { exists j :: 0 <= j < count && name == DimName(j) }

  /** Each size has one name and each name one size, and the next name is free. */
  ghost predicate OneToOne(st: Made) {
    && (forall k :: k in st.dims ==> IsMade(k, st.count))
    && (forall j, k :: j in st.dims && k in st.dims && st.dims[j] == st.dims[k] ==> j == k)
  }

  lemma NextNameIsFree(st: Made)
    requires OneToOne(st)
    ensures DimName(st.count) !in st.dims
  {
    if DimName(st.count) in st.dims {
      var j :| 0 <= j < st.count && DimName(st.count) == DimName(j);
      DimNamesDiffer(st.count, j);
    }
  }

  lemma MadeIsFound(name: string, count: nat)
    requires IsMade(name, count)
    ensures name != NOT_FOUND
  {
    assert name[0] == 'd' && NOT_FOUND[0] == 'N';
  }

  /** A size is found exactly when some dimension has it, under that dimension's name. */
  lemma SizeIsFound(st: Made, size: nat, name: string)
    requires OneToOne(st) && name in st.dims && st.dims[name] == size
    ensures DimensionName(st.dims, size) == name != NOT_FOUND
  {
    MadeIsFound(name, st.count);
    var names := set k | k in st.dims && st.dims[k] == size;
    assert name in names;
    assert Least(names) in names;
  }

  /** Making a dimension keeps the others and their names, and then the size is found. */
  lemma WithSizeKeeps(st: Made, size: nat)
    requires OneToOne(st)
    ensures var r := WithSize(st, size);
            && OneToOne(r) && Within(st.dims, r.dims)
            && DimensionName(r.dims, size) in r.dims && r.dims[DimensionName(r.dims, size)] == size
  {
    var found, r := DimensionName(st.dims, size), WithSize(st, size);
    if found == NOT_FOUND {
      NextNameIsFree(st);
      NewIsOneToOne(st, size);
      SizeIsFound(r, size, DimName(st.count));
    }
  }

  lemma NewIsOneToOne(st: Made, size: nat)
    requires OneToOne(st) && DimName(st.count) !in st.dims && DimensionName(st.dims, size) == NOT_FOUND
    ensures OneToOne(Made(st.dims[DimName(st.count) := size], st.count + 1))
  {
    forall k | k in st.dims ensures st.dims[k] != size && IsMade(k, st.count + 1) {
      if st.dims[k] == size { SizeIsFound(st, size, k); }
      var j :| 0 <= j < st.count && k == DimName(j);
    }
    assert IsMade(DimName(st.count), st.count + 1);
  }

  /** Names once given stay: lookups give the same after more dimensions were made. */
  lemma NamesStay(a: Made, b: Made, size: nat)
    requires OneToOne(a) && OneToOne(b) && Within(a.dims, b.dims)
    requires DimensionName(a.dims, size) in a.dims && a.dims[DimensionName(a.dims, size)] == size
    ensures DimensionName(b.dims, size) == DimensionName(a.dims, size)
  {
    SizeIsFound(b, size, DimensionName(a.dims, size));
  }

  // ---------------------------------------------------------------------------
  // One field
  // ---------------------------------------------------------------------------

  const LON_NAME := "longitude"
  const LAT_NAME := "latitude"

  function Lons(coords: seq<Point>): seq<real> { seq(|coords|, i requires 0 <= i < |coords| => coords[i].lon) }
  function Lats(coords: seq<Point>): seq<real> { seq(|coords|, i requires 0 <= i < |coords| => coords[i].lat) }

  function CoordVariable(dims: map<string, nat>, name: string, size: nat): VariableView {
    VariableView(name, DoubleType, [(DimensionName(dims, size), size)], map[])
  }

  /** Values in Atlas order: all levels of a point, then those of the next. */
  ghost function AtlasOrder(cells: Cells, points: nat, levels: nat): (data: seq<real>)
    requires Shaped(cells, points, levels)
    ensures |data| == points * levels
  {
    if levels == 0 then []
    else seq(points * levels, x requires 0 <= x < points * levels => ValueAt(cells, points, levels, x))
  }

  ghost function ValueAt(cells: Cells, points: nat, levels: nat, x: nat): real
    requires Shaped(cells, points, levels) && levels > 0 && x < points * levels
  {
    FlatSplit(x, levels, points);
    cells[x / levels][x % levels]
  }

  /** Point i, level j stands at j + i * levels. */
  lemma AtlasOrderAt(cells: Cells, points: nat, levels: nat, i: nat, j: nat)
    requires Shaped(cells, points, levels) && i < points && j < levels
    ensures Flat(j, i, levels) < points * levels && AtlasOrder(cells, points, levels)[Flat(j, i, levels)] == cells[i][j]
  {
    FlatBound(j, i, levels, points);
    var x := Flat(j, i, levels);
    FlatSplit(x, levels, points);
    FlatInjective(j, i, x % levels, x / levels, levels);
  }

  lemma AtlasOrderIs(data: seq<real>, cells: Cells, points: nat, levels: nat)
    requires Shaped(cells, points, levels) && |data| == points * levels
    requires forall i, j :: 0 <= i < points && 0 <= j < levels && Flat(j, i, levels) < |data| ==>
               data[Flat(j, i, levels)] == cells[i][j]
    ensures data == AtlasOrder(cells, points, levels)
  {
    var r := AtlasOrder(cells, points, levels);
    forall x | 0 <= x < |data| ensures data[x] == r[x] {
      FlatSplit(x, levels, points);
      assert Flat(x % levels, x / levels, levels) == x;
    }
  }

  ghost function SetContainer(field: FieldView): Store.Container
    requires field.Valid()
  {
    Store.Container(field.name, field.typ, AtlasOrder(field.cells, field.points, field.levels))
  }

  /** Dimensions for a field's sizes, points first. */
  function WithSizes(st: Made, sizes: seq<nat>): Made {
    if sizes == [] then st else WithSize(WithSizes(st, sizes[..|sizes| - 1]), sizes[|sizes| - 1])
  }

  /** In a new file the first field's points get the first number, its levels the next. */
  lemma FirstSizesAreNumbered(count: nat, points: nat, levels: nat)
    requires points != levels
    ensures WithSizes(Made(map[], count), [points, levels]) ==
            Made(map[DimName(count) := points, DimName(count + 1) := levels], count + 2)
  {
    if DimName(count) == DimName(count + 1) { DimNamesDiffer(count, count + 1); }
    var none, d := Made(map[], count), map[DimName(count) := points];
    assert DimensionName(none.dims, points) == NOT_FOUND;
    assert WithSize(none, points) == Made(d, count + 1);
    var names := set k | k in d && d[k] == levels;
    assert names == {};
    assert WithSize(Made(d, count + 1), levels) == Made(d[DimName(count + 1) := levels], count + 2);
    assert [points, levels][..1] == [points] && [points][..0] == [];
    assert WithSizes(none, [points]) == WithSize(none, points);
  }

  datatype SetState = SetState(store: FileView, file: NcFile, count: nat)

  /** The metadata with a field's dimensions, variable, coordinates and attributes. */
  function SetMeta(m: Meta, dims: map<string, nat>, field: FieldView, size: nat): Option<Meta> {
    match ListDims(dims, [field.levels, field.points], "")
    case None => None
    case Some(listed) =>
      Some(WithCoords(m.(dims := dims).AddVariable(VariableView(field.name, field.typ, listed, map[])), size))
  }

  function WithCoords(m: Meta, size: nat): Meta {
    var r := m.AddVariable(CoordVariable(m.dims, LON_NAME, size)).AddVariable(CoordVariable(m.dims, LAT_NAME, size));
    r.(attrs := WithGlobalAttributes(r.attrs, false))
  }

  ghost function SetData(data: Containers, field: FieldView, coords: seq<Point>): Containers
    requires field.Valid()
  {
    WithContainer(WithContainer(WithContainer(data, Store.Container(LON_NAME, DoubleType, Lons(coords))),
                                Store.Container(LAT_NAME, DoubleType, Lats(coords))), SetContainer(field))
  }

  ghost function SetPopulated(fv: FileView, dims: map<string, nat>, field: FieldView, coords: seq<Point>)
    : Option<FileView>
    requires field.Valid()
  {
    match SetMeta(fv.meta, dims, field, |coords|)
    case None => None
    case Some(m) => Some(fv.(meta := m, data := SetData(fv.data, field, coords)))
  }

  ghost function SetStep(st: SetState, field: FieldView, coords: seq<Point>): Option<SetState>
    requires field.Valid()
  {
    var made := WithSizes(Made(st.store.meta.dims, st.count), [field.points, field.levels]);
    match SetPopulated(st.store, made.dims, field, coords)
    case None => None
    case Some(p) =>
      match Flushed(p, st.file)
      case None => None
      case Some(r) => Some(SetState(r.store, r.file, made.count))
  }

  ghost predicate ValidViews(fields: seq<FieldView>) { forall v :: v in fields ==> v.Valid() }

  /** The rounds for a list of fields, each with the coordinates of its own grid. */
  ghost function SetRun(st: SetState, fields: seq<FieldView>, grids: seq<seq<Point>>): Option<SetState>
    requires ValidViews(fields) && |grids| == |fields|
  {
    if fields == [] then Some(st)
    else
      var n := |fields| - 1;
      match SetRun(st, fields[..n], grids[..n])
      case None => None
      case Some(r) => SetStep(r, fields[n], grids[n])
  }

  lemma SetRunNext(st: SetState, fields: seq<FieldView>, grids: seq<seq<Point>>, i: nat)
    requires ValidViews(fields) && |grids| == |fields| && i < |fields|
    ensures var before := SetRun(st, fields[..i], grids[..i]);
            SetRun(st, fields[..i + 1], grids[..i + 1]) ==
            if before.None? then None else SetStep(before.value, fields[i], grids[i])
  {
    assert fields[..i + 1][..i] == fields[..i] && grids[..i + 1][..i] == grids[..i];
  }

  lemma SetRunNextFails(st: SetState, fields: seq<FieldView>, grids: seq<seq<Point>>, i: nat)
    requires ValidViews(fields) && |grids| == |fields| && i < |fields|
    ensures SetRun(st, fields[..i], grids[..i]).None? ==> SetRun(st, fields[..i + 1], grids[..i + 1]).None?
  {
    SetRunNext(st, fields, grids, i);
  }

  lemma {:induction false} SetRunStaysFailed(st: SetState, fields: seq<FieldView>, grids: seq<seq<Point>>, i: nat,
                                             k: nat)
    requires ValidViews(fields) && |grids| == |fields| && i <= k <= |fields|
    requires SetRun(st, fields[..i], grids[..i]).None?
    ensures SetRun(st, fields[..k], grids[..k]).None?
    decreases k - i
  {
    if i < k {
      SetRunNextFails(st, fields, grids, i);
      SetRunStaysFailed(st, fields, grids, i + 1, k);
    }
  }

  /** A run fails if a part of it does. */
  lemma SetRunFails(st: SetState, fields: seq<FieldView>, grids: seq<seq<Point>>, i: nat)
    requires ValidViews(fields) && |grids| == |fields| && i <= |fields|
    ensures SetRun(st, fields[..i], grids[..i]).None? ==> SetRun(st, fields, grids).None?
  {
    if SetRun(st, fields[..i], grids[..i]).None? { SetRunStaysFailed(st, fields, grids, i, |fields|); }
    assert fields[..|fields|] == fields && grids[..|fields|] == grids;
  }

  // ---------------------------------------------------------------------------
  // What one field adds to the file
  // ---------------------------------------------------------------------------

  ghost predicate Known(dims: map<string, nat>, size: nat) {
    DimensionName(dims, size) in dims && dims[DimensionName(dims, size)] == size
  }

  function CoordNcVar(dims: map<string, nat>, values: seq<real>): NcVar {
    NcVar(NcDouble, [DimensionName(dims, |values|)], map[], values)
  }

  function CoordVars(dims: map<string, nat>, coords: seq<Point>): map<string, NcVar> {
    map[LON_NAME := CoordNcVar(dims, Lons(coords)), LAT_NAME := CoordNcVar(dims, Lats(coords))]
  }

  /** The variable of a field: dimensions by level and point, values by point and level. */
  ghost function SetNcVar(dims: map<string, nat>, field: FieldView): NcVar
    requires field.Valid()
  {
    NcVar(WriteType(field.typ), [DimensionName(dims, field.levels), DimensionName(dims, field.points)], map[],
          AtlasOrder(field.cells, field.points, field.levels))
  }

  /** The field is of the grid of these coordinates, has another number of levels than
      points, and a name of its own. */
  ghost predicate OfGrid(field: FieldView, coords: seq<Point>) {
    && field.Valid() && field.points == |coords| && field.levels != field.points
    && field.name != LON_NAME && field.name != LAT_NAME
  }

  lemma SizesAreMade(st: Made, points: nat, levels: nat)
    requires OneToOne(st)
    ensures var r := WithSizes(st, [points, levels]);
            OneToOne(r) && Within(st.dims, r.dims) && Known(r.dims, points) && Known(r.dims, levels) &&
              st.count <= r.count
  {
    assert [points, levels][..1] == [points] && [points][..0] == [];
    assert WithSizes(st, [points]) == WithSize(st, points);
    var a := WithSize(st, points);
    WithSizeKeeps(st, points);
    WithSizeKeeps(a, levels);
    NamesStay(a, WithSize(a, levels), points);
  }

  lemma SizesAreListed(dims: map<string, nat>, points: nat, levels: nat)
    requires Known(dims, points) && Known(dims, levels) && points != levels
    requires DimensionName(dims, points) != NOT_FOUND && DimensionName(dims, levels) != NOT_FOUND
    ensures ListDims(dims, [levels, points], "") ==
              Some([(DimensionName(dims, levels), levels), (DimensionName(dims, points), points)])
  {
    var l, p := DimensionName(dims, levels), DimensionName(dims, points);
    assert l != p && DimNameFor(dims, levels, "") == l && DimNameFor(dims, points, "") == p;
    TwoSizesListed(dims, levels, points, "");
    assert Named(l, levels) + Named(p, points) == [(l, levels), (p, points)];
  }

  lemma KnownIsFound(st: Made, size: nat)
    requires OneToOne(st) && Known(st.dims, size)
    ensures DimensionName(st.dims, size) != NOT_FOUND
  {
    MadeIsFound(DimensionName(st.dims, size), st.count);
  }

  lemma CoordFits(dims: map<string, nat>, name: string, values: seq<real>)
    requires Known(dims, |values|)
    ensures Fits(dims, CoordVariable(dims, name, |values|), Store.Container(name, DoubleType, values), name)
    ensures AsWritten(CoordVariable(dims, name, |values|), Store.Container(name, DoubleType, values)) ==
              CoordNcVar(dims, values)
  {
    var v := CoordVariable(dims, name, |values|);
    Hyperslab.TotalSizeCons(v.dims);
    assert v.dims[1..] == [];
    assert WriteAttrs(map[]) == map[];
  }

  lemma FieldFitsSet(dims: map<string, nat>, field: FieldView)
    requires field.Valid() && Known(dims, field.points) && Known(dims, field.levels)
    ensures var v := VariableView(field.name, field.typ,
                       [(DimensionName(dims, field.levels), field.levels),
                        (DimensionName(dims, field.points), field.points)], map[]);
            Fits(dims, v, SetContainer(field), field.name) && AsWritten(v, SetContainer(field)) == SetNcVar(dims, field)
  {
    var listed :=
      [(DimensionName(dims, field.levels), field.levels), (DimensionName(dims, field.points), field.points)];
    assert Hyperslab.Sizes(listed) == [field.levels, field.points];
    Hyperslab.ProductOfTwo(field.levels, field.points);
    assert WriteAttrs(map[]) == map[];
  }

  const SET_ATTRS := WriteAttrs(WithGlobalAttributes(map[], false))

  /** The store for one field of the grid: field and coordinates, nothing else. */
  function FieldAlone(dims: map<string, nat>, v: VariableView, c: Store.Container, coords: seq<Point>): FileView {
    FileView(
      Meta(dims,
           map[v.name := v, LON_NAME := CoordVariable(dims, LON_NAME, |coords|),
               LAT_NAME := CoordVariable(dims, LAT_NAME, |coords|)],
           WithGlobalAttributes(map[], false)),
      map[LON_NAME := Store.Container(LON_NAME, DoubleType, Lons(coords)),
          LAT_NAME := Store.Container(LAT_NAME, DoubleType, Lats(coords)), c.name := c],
      [], [])
  }

  function SetView(dims: map<string, nat>, field: FieldView): VariableView {
    VariableView(field.name, field.typ,
                 [(DimensionName(dims, field.levels), field.levels),
                  (DimensionName(dims, field.points), field.points)], map[])
  }

  lemma LonIsNotLat()
    ensures LON_NAME != LAT_NAME
  {
    assert LON_NAME[1] == 'o' && LAT_NAME[1] == 'a';
  }

  lemma PopulatedAlone(dims: map<string, nat>, before: map<string, nat>, field: FieldView, coords: seq<Point>)
    requires OfGrid(field, coords) && Known(dims, field.points) && Known(dims, field.levels)
    requires DimensionName(dims, field.points) != NOT_FOUND && DimensionName(dims, field.levels) != NOT_FOUND
    ensures SetPopulated(FileView(Meta(before, map[], map[]), map[], [], []), dims, field, coords) ==
            Some(FieldAlone(dims, SetView(dims, field), SetContainer(field), coords))
  {
    LonIsNotLat();
    SizesAreListed(dims, field.points, field.levels);
  }

  lemma TwoAreReady(none: FileView, one: FileView, two: FileView, x: VariableView, cx: Store.Container, y: VariableView,
                    cy: Store.Container)
    requires none.meta.vars == map[] && none.data == map[] && x.name != y.name
    requires one == none.(meta := none.meta.(vars := map[][x.name := x]), data := map[][x.name := cx])
    requires two ==
               none.(meta := none.meta.(vars := map[x.name := x, y.name := y]), data := map[x.name := cx, y.name := cy])
    requires Fits(none.meta.dims, x, cx, x.name) && Fits(none.meta.dims, y, cy, y.name)
    ensures Ready(two) && WrittenVars(two) == map[x.name := AsWritten(x, cx), y.name := AsWritten(y, cy)]
  {
    AddingIsReady(none, x, cx, x.name, none.meta.attrs);
    AddingIsReady(one, y, cy, y.name, none.meta.attrs);
  }

  lemma ThreeAreReady(fv: FileView, v: VariableView, c: Store.Container, x: VariableView, cx: Store.Container,
                      y: VariableView, cy: Store.Container)
    requires v.name != x.name && v.name != y.name && x.name != y.name
    requires fv.meta.vars == map[v.name := v, x.name := x, y.name := y]
    requires fv.data == map[x.name := cx, y.name := cy, v.name := c]
    requires Fits(fv.meta.dims, v, c, v.name) && Fits(fv.meta.dims, x, cx, x.name) && Fits(fv.meta.dims, y, cy, y.name)
    ensures Ready(fv)
    ensures WrittenVars(fv) == map[x.name := AsWritten(x, cx), y.name := AsWritten(y, cy)][v.name := AsWritten(v, c)]
  {
    var none := fv.(meta := fv.meta.(vars := map[]), data := map[]);
    var one := fv.(meta := fv.meta.(vars := map[][x.name := x]), data := map[][x.name := cx]);
    var two := fv.(meta := fv.meta.(vars := map[x.name := x, y.name := y]), data := map[x.name := cx, y.name := cy]);
    TwoAreReady(none, one, two, x, cx, y, cy);
    AddingIsReady(two, v, c, v.name, fv.meta.attrs);
    LastIsFirst(v.name, v, x.name, x, y.name, y);
  }

  lemma LastIsFirst<V>(k: string, v: V, i: string, a: V, j: string, b: V)
    requires k != i && k != j
    ensures map[i := a, j := b][k := v] == map[k := v, i := a, j := b]
  {
  }

  lemma AloneIsReady(dims: map<string, nat>, field: FieldView, coords: seq<Point>)
    requires OfGrid(field, coords) && Known(dims, field.points) && Known(dims, field.levels)
    ensures var p := FieldAlone(dims, SetView(dims, field), SetContainer(field), coords);
            Ready(p) && WrittenVars(p) == CoordVars(dims, coords)[field.name := SetNcVar(dims, field)]
  {
    LonIsNotLat();
    CoordFits(dims, LON_NAME, Lons(coords));
    CoordFits(dims, LAT_NAME, Lats(coords));
    FieldFitsSet(dims, field);
    ThreeAreReady(FieldAlone(dims, SetView(dims, field), SetContainer(field), coords), SetView(dims, field),
                  SetContainer(field),
                  CoordVariable(dims, LON_NAME, |coords|), Store.Container(LON_NAME, DoubleType, Lons(coords)),
                  CoordVariable(dims, LAT_NAME, |coords|), Store.Container(LAT_NAME, DoubleType, Lats(coords)));
  }

  /** The file before a round: new, or with coordinates and some fields. */
  ghost predicate HasCoords(f: NcFile, dims: map<string, nat>, coords: seq<Point>) {
    || f == EMPTY_FILE
    || (Within(CoordVars(dims, coords), f.vars) && f.attrs == SET_ATTRS && Within(f.dims, dims))
  }

  lemma CoordsAgree(f: NcFile, dims: map<string, nat>, field: FieldView, coords: seq<Point>)
    requires OfGrid(field, coords) && Known(dims, field.points) && Known(dims, field.levels)
    requires HasCoords(f, dims, coords) && field.name !in f.vars
    ensures var p := FieldAlone(dims, SetView(dims, field), SetContainer(field), coords);
            && Ready(p) && Agrees(p, f) && Within(f.dims, dims)
            && WrittenVars(p) == CoordVars(dims, coords)[field.name := SetNcVar(dims, field)]
            && WriteAttrs(p.meta.attrs) + f.attrs == SET_ATTRS
  {
    AloneIsReady(dims, field, coords);
    AddToNothing(SET_ATTRS);
  }

  /** What is left of a store between rounds. */
  function OnlyDims(dims: map<string, nat>): FileView { EMPTY_FILE_VIEW.(meta := EMPTY_META.(dims := dims)) }

  lemma StepPopulates(before: Made, field: FieldView, coords: seq<Point>)
    requires OfGrid(field, coords) && OneToOne(before)
    ensures var made := WithSizes(before, [field.points, field.levels]);
            && Known(made.dims, field.points) && Known(made.dims, field.levels)
            && SetPopulated(OnlyDims(before.dims), made.dims, field, coords) ==
               Some(FieldAlone(made.dims, SetView(made.dims, field), SetContainer(field), coords))
  {
    var made := WithSizes(before, [field.points, field.levels]);
    SizesAreMade(before, field.points, field.levels);
    KnownIsFound(made, field.points);
    KnownIsFound(made, field.levels);
    PopulatedAlone(made.dims, before.dims, field, coords);
  }

  lemma AloneIsFlushed(f: NcFile, dims: map<string, nat>, field: FieldView, coords: seq<Point>)
    requires OfGrid(field, coords) && Known(dims, field.points) && Known(dims, field.levels)
    requires HasCoords(f, dims, coords) && field.name !in f.vars
    ensures Flushed(FieldAlone(dims, SetView(dims, field), SetContainer(field), coords), f) ==
            Some(RunState(OnlyDims(dims),
                          NcFile(dims, f.vars + CoordVars(dims, coords)[field.name := SetNcVar(dims, field)],
                                 SET_ATTRS)))
  {
    CoordsAgree(f, dims, field, coords);
    ReadyStoreIsWritten(FieldAlone(dims, SetView(dims, field), SetContainer(field), coords), f);
  }

  /** A round writes its field, and no other variable is changed by it. */
  lemma SetStepWrites(st: SetState, field: FieldView, coords: seq<Point>)
    requires OfGrid(field, coords) && field.name !in st.file.vars
    requires st.store == OnlyDims(st.store.meta.dims) && OneToOne(Made(st.store.meta.dims, st.count))
    requires HasCoords(st.file, WithSizes(Made(st.store.meta.dims, st.count), [field.points, field.levels]).dims,
                       coords)
    ensures var made := WithSizes(Made(st.store.meta.dims, st.count), [field.points, field.levels]);
            SetStep(st, field, coords) == Some(SetState(
              OnlyDims(made.dims),
              NcFile(made.dims, st.file.vars + CoordVars(made.dims, coords)[field.name := SetNcVar(made.dims, field)],
                     SET_ATTRS),
              made.count))
  {
    StepPopulates(Made(st.store.meta.dims, st.count), field, coords);
    AloneIsFlushed(st.file, WithSizes(Made(st.store.meta.dims, st.count), [field.points, field.levels]).dims, field,
                   coords);
  }

  // ---------------------------------------------------------------------------
  // The whole run
  // ---------------------------------------------------------------------------

  /** Fields of one grid with names of their own. */
  ghost predicate CanWriteSet(fields: seq<FieldView>, coords: seq<Point>) {
    && (forall i :: 0 <= i < |fields| ==> OfGrid(fields[i], coords))
    && (forall i, j :: 0 <= i < j < |fields| ==> fields[i].name != fields[j].name)
  }

  ghost predicate AllKnown(dims: map<string, nat>, fields: seq<FieldView>) {
    forall i :: 0 <= i < |fields| ==> Known(dims, fields[i].points) && Known(dims, fields[i].levels)
  }

  ghost function SetEntries(dims: map<string, nat>, fields: seq<FieldView>): (r: seq<(string, NcVar)>)
    requires forall i :: 0 <= i < |fields| ==> fields[i].Valid()
    ensures |r| == |fields| && forall i :: 0 <= i < |fields| ==> r[i] == (fields[i].name, SetNcVar(dims, fields[i]))
  {
    seq(|fields|, i requires 0 <= i < |fields| => (fields[i].name, SetNcVar(dims, fields[i])))
  }

  /** The file of a run: coordinates and fields, with dimensions of those names. */
  ghost function SetFile(dims: map<string, nat>, fields: seq<FieldView>, coords: seq<Point>): NcFile
    requires CanWriteSet(fields, coords)
  {
    if fields == [] then EMPTY_FILE
    else NcFile(dims, CoordVars(dims, coords) + ByName(SetEntries(dims, fields)), SET_ATTRS)
  }

  lemma KnownStays(a: Made, b: Made, size: nat)
    requires OneToOne(a) && OneToOne(b) && Within(a.dims, b.dims) && Known(a.dims, size)
    ensures Known(b.dims, size) && DimensionName(b.dims, size) == DimensionName(a.dims, size)
  {
    NamesStay(a, b, size);
  }

  /** More dimensions change nothing of what the file has. */
  lemma SetFileStays(a: Made, b: Made, fields: seq<FieldView>, coords: seq<Point>)
    requires OneToOne(a) && OneToOne(b) && Within(a.dims, b.dims)
    requires CanWriteSet(fields, coords) && AllKnown(a.dims, fields)
    ensures AllKnown(b.dims, fields) && SetEntries(b.dims, fields) == SetEntries(a.dims, fields)
    ensures SetFile(b.dims, fields, coords).vars == SetFile(a.dims, fields, coords).vars
    ensures fields != [] ==> CoordVars(a.dims, coords) == CoordVars(b.dims, coords)
  {
    forall i | 0 <= i < |fields|
      ensures Known(b.dims, fields[i].points) && Known(b.dims, fields[i].levels)
      ensures SetNcVar(b.dims, fields[i]) == SetNcVar(a.dims, fields[i])
    {
      KnownStays(a, b, fields[i].points);
      KnownStays(a, b, fields[i].levels);
    }
    if fields != [] { KnownStays(a, b, fields[0].points); }
  }

  lemma AddedToCoords<V>(c: map<string, V>, b: map<string, V>, k: string, v: V)
    requires c.Keys !! b.Keys && k !in c
    ensures (c + b) + c[k := v] == c + b[k := v] && Within(c, c + b)
  {
  }

  lemma SetNamesAreNew(dims: map<string, nat>, fields: seq<FieldView>, coords: seq<Point>, n: nat)
    requires CanWriteSet(fields, coords) && n < |fields|
    ensures CanWriteSet(fields[..n], coords)
    ensures var c, b := CoordVars(dims, coords), ByName(SetEntries(dims, fields[..n]));
            c.Keys !! b.Keys && fields[n].name !in c && fields[n].name !in b
  {
    ByNameHas(SetEntries(dims, fields[..n]));
  }

  lemma SetFileNext(dims: map<string, nat>, fields: seq<FieldView>, coords: seq<Point>, n: nat)
    requires CanWriteSet(fields, coords) && n < |fields|
    ensures CanWriteSet(fields[..n], coords) && CanWriteSet(fields[..n + 1], coords)
    ensures fields[n].name !in SetFile(dims, fields[..n], coords).vars
    ensures n > 0 ==> Within(CoordVars(dims, coords), SetFile(dims, fields[..n], coords).vars)
    ensures SetFile(dims, fields[..n + 1], coords).vars ==
            SetFile(dims, fields[..n], coords).vars +
            CoordVars(dims, coords)[fields[n].name := SetNcVar(dims, fields[n])]
  {
    var c, b := CoordVars(dims, coords), ByName(SetEntries(dims, fields[..n]));
    SetNamesAreNew(dims, fields, coords, n);
    EntriesNext(dims, fields, n);
    AddedToCoords(c, b, fields[n].name, SetNcVar(dims, fields[n]));
    if n == 0 {
      AddToNothing(c);
      AddedLast(c, map[], fields[n].name, SetNcVar(dims, fields[n]));
      AddToNothing(c[fields[n].name := SetNcVar(dims, fields[n])]);
    }
  }

  lemma EntriesNext(dims: map<string, nat>, fields: seq<FieldView>, n: nat)
    requires n < |fields| && forall i :: 0 <= i < |fields| ==> fields[i].Valid()
    ensures ByName(SetEntries(dims, fields[..n + 1])) ==
            ByName(SetEntries(dims, fields[..n]))[fields[n].name := SetNcVar(dims, fields[n])]
  {
    assert SetEntries(dims, fields[..n + 1])[..n] == SetEntries(dims, fields[..n]);
  }

  /** The state between rounds. */
  ghost predicate Between(st: SetState, count: nat, fields: seq<FieldView>, coords: seq<Point>) {
    && st.store == OnlyDims(st.store.meta.dims)
    && OneToOne(Made(st.store.meta.dims, st.count)) && count <= st.count
    && CanWriteSet(fields, coords) && AllKnown(st.store.meta.dims, fields)
    && st.file == SetFile(st.store.meta.dims, fields, coords)
  }

  lemma NextSetFile(a: Made, b: Made, fields: seq<FieldView>, coords: seq<Point>, n: nat)
    requires CanWriteSet(fields, coords) && n < |fields| && OneToOne(a) && OneToOne(b) && Within(a.dims, b.dims)
    requires CanWriteSet(fields[..n], coords) && AllKnown(a.dims, fields[..n])
    ensures var f, field := SetFile(a.dims, fields[..n], coords), fields[n];
            && HasCoords(f, b.dims, coords) && field.name !in f.vars
            && CanWriteSet(fields[..n + 1], coords)
            && SetFile(b.dims, fields[..n + 1], coords) ==
               NcFile(b.dims, f.vars + CoordVars(b.dims, coords)[field.name := SetNcVar(b.dims, field)], SET_ATTRS)
  {
    SetFileStays(a, b, fields[..n], coords);
    SetFileNext(b.dims, fields, coords, n);
  }

  lemma KnownNext(a: Made, b: Made, fields: seq<FieldView>, n: nat)
    requires n < |fields| && OneToOne(a) && OneToOne(b) && Within(a.dims, b.dims)
    requires AllKnown(a.dims, fields[..n]) && Known(b.dims, fields[n].points) && Known(b.dims, fields[n].levels)
    ensures AllKnown(b.dims, fields[..n + 1])
  {
    forall i | 0 <= i < n ensures Known(b.dims, fields[i].points) && Known(b.dims, fields[i].levels) {
      assert fields[..n][i] == fields[i];
      KnownStays(a, b, fields[i].points);
      KnownStays(a, b, fields[i].levels);
    }
  }

  lemma SetStepKeeps(st: SetState, count: nat, fields: seq<FieldView>, coords: seq<Point>, n: nat)
    requires CanWriteSet(fields, coords) && n < |fields| && Between(st, count, fields[..n], coords)
    ensures var r := SetStep(st, fields[n], coords); r.Some? && Between(r.value, count, fields[..n + 1], coords)
  {
    var field := fields[n];
    var a := Made(st.store.meta.dims, st.count);
    var b := WithSizes(a, [field.points, field.levels]);
    SizesAreMade(a, field.points, field.levels);
    NextSetFile(a, b, fields, coords, n);
    KnownNext(a, b, fields, n);
    SetStepWrites(st, field, coords);
  }

  /** All fields are of one grid. */
  ghost predicate OneGrid(grids: seq<seq<Point>>, coords: seq<Point>)
  {
    forall i :: 0 <= i < |grids| ==> grids[i] == coords
  }

  /** Whatever the counter is when a run for fields of one grid starts: each round
      succeeds, and the file holds the coordinates and every field so far, with just the
      dimensions made for them. */
  lemma {:induction false} SetRunWrites(count: nat, fields: seq<FieldView>, grids: seq<seq<Point>>, coords: seq<Point>,
                                        n: nat)
    requires CanWriteSet(fields, coords) && |grids| == |fields| && OneGrid(grids, coords) && n <= |fields|
    ensures ValidViews(fields[..n])
    ensures var r := SetRun(SetState(EMPTY_FILE_VIEW, EMPTY_FILE, count), fields[..n], grids[..n]);
            r.Some? && Between(r.value, count, fields[..n], coords)
  {
    if n > 0 {
      var start := SetState(EMPTY_FILE_VIEW, EMPTY_FILE, count);
      SetRunWrites(count, fields, grids, coords, n - 1);
      SetRunNext(start, fields, grids, n - 1);
      SetStepKeeps(SetRun(start, fields[..n - 1], grids[..n - 1]).value, count, fields, coords, n - 1);
    }
  }

  // ---------------------------------------------------------------------------
  // Names and sizes in any run
  // ---------------------------------------------------------------------------

  /** Names and sizes correspond, and those of the file are all of these. */
  ghost predicate NamesKept(st: SetState, count: nat, fields: seq<FieldView>) {
    && OneToOne(Made(st.store.meta.dims, st.count)) && count <= st.count && AllKnown(st.store.meta.dims, fields)
    && st.file.dims == (if fields == [] then map[] else st.store.meta.dims)
  }

  /** A round that succeeds leaves the dimensions made for its field in store and file. */
  lemma SetStepDims(st: SetState, field: FieldView, coords: seq<Point>)
    requires field.Valid() && OneToOne(Made(st.store.meta.dims, st.count)) && Within(st.file.dims, st.store.meta.dims)
    requires SetStep(st, field, coords).Some?
    ensures var made, r :=
              WithSizes(Made(st.store.meta.dims, st.count), [field.points, field.levels]),
              SetStep(st, field, coords).value;
            r.store.meta.dims == r.file.dims == made.dims && r.count == made.count
  {
    var made := WithSizes(Made(st.store.meta.dims, st.count), [field.points, field.levels]);
    SizesAreMade(Made(st.store.meta.dims, st.count), field.points, field.levels);
    var p := SetPopulated(st.store, made.dims, field, coords).value;
    assert p.meta.dims == made.dims;
    WithinUnion(st.file.dims, made.dims);
  }

  lemma NamesKeptNext(st: SetState, count: nat, fields: seq<FieldView>, coords: seq<Point>, n: nat)
    requires ValidViews(fields) && n < |fields| && NamesKept(st, count, fields[..n])
    requires SetStep(st, fields[n], coords).Some?
    ensures NamesKept(SetStep(st, fields[n], coords).value, count, fields[..n + 1])
  {
    var a, field := Made(st.store.meta.dims, st.count), fields[n];
    SetStepDims(st, field, coords);
    SizesAreMade(a, field.points, field.levels);
    KnownNext(a, WithSizes(a, [field.points, field.levels]), fields, n);
  }

  lemma RoundKeepsNames(start: SetState, st: SetState, count: nat, fields: seq<FieldView>, grids: seq<seq<Point>>,
                        n: nat)
    requires ValidViews(fields) && |grids| == |fields| && n < |fields|
    requires SetRun(start, fields[..n], grids[..n]) == Some(st) && NamesKept(st, count, fields[..n])
    requires SetRun(start, fields[..n + 1], grids[..n + 1]).Some?
    ensures NamesKept(SetRun(start, fields[..n + 1], grids[..n + 1]).value, count, fields[..n + 1])
  {
    SetRunNext(start, fields, grids, n);
    NamesKeptNext(st, count, fields, grids[n], n);
  }

  /** In any run that succeeds, whatever its fields, their grids and the counter: names and
      sizes of the dimensions stay in one-to-one correspondence, every size is found, and
      the file has just these dimensions. */
  lemma {:induction false} SetRunKeepsNames(count: nat, fields: seq<FieldView>, grids: seq<seq<Point>>, n: nat)
    requires ValidViews(fields) && |grids| == |fields| && n <= |fields|
    requires SetRun(SetState(EMPTY_FILE_VIEW, EMPTY_FILE, count), fields, grids).Some?
    ensures ValidViews(fields[..n])
    ensures var r := SetRun(SetState(EMPTY_FILE_VIEW, EMPTY_FILE, count), fields[..n], grids[..n]);
            r.Some? && NamesKept(r.value, count, fields[..n])
  {
    var start := SetState(EMPTY_FILE_VIEW, EMPTY_FILE, count);
    SetRunFails(start, fields, grids, n);
    if n > 0 {
      SetRunKeepsNames(count, fields, grids, n - 1);
      RoundKeepsNames(start, SetRun(start, fields[..n - 1], grids[..n - 1]).value, count, fields, grids, n - 1);
    }
  }

  datatype FieldSet = FieldSet(fields: seq<FieldView>, grids: seq<seq<Point>>) {
    ghost predicate Valid() { ValidViews(fields) && |grids| == |fields| }
  }

  ghost function RunOf(count: nat, s: FieldSet): Option<SetState>
    requires s.Valid()
  {
    SetRun(SetState(EMPTY_FILE_VIEW, EMPTY_FILE, count), s.fields, s.grids)
  }

  /** Runs one after another, the counter carried from each to the next, as long as they
      succeed: each keeps names and sizes apart. */
  ghost predicate RunsKeepNames(count: nat, sets: seq<FieldSet>)
    decreases |sets|
  {
    sets == [] || !sets[0].Valid() || RunOf(count, sets[0]).None? ||
    (NamesKept(RunOf(count, sets[0]).value, count, sets[0].fields) &&
     RunsKeepNames(RunOf(count, sets[0]).value.count, sets[1..]))
  }

  lemma {:induction false} EveryRunKeepsNames(count: nat, sets: seq<FieldSet>)
    ensures RunsKeepNames(count, sets)
    decreases |sets|
  {
    if sets != [] && sets[0].Valid() && RunOf(count, sets[0]).Some? {
      var s := sets[0];
      SetRunKeepsNames(count, s.fields, s.grids, |s.fields|);
      assert s.fields[..|s.fields|] == s.fields && s.grids[..|s.grids|] == s.grids;
      EveryRunKeepsNames(RunOf(count, s).value.count, sets[1..]);
    }
  }

  /** The set can be written: its fields are of one grid, with names of their own. */
  ghost predicate CanWriteAll(s: FieldSet) {
    |s.grids| == |s.fields| && (s.fields != [] ==> CanWriteSet(s.fields, s.grids[0]) && OneGrid(s.grids, s.grids[0]))
  }

  /** Such runs one after another all succeed and leave their file as it should be. */
  ghost predicate RunsWrite(count: nat, sets: seq<FieldSet>)
    decreases |sets|
  {
    sets == [] ||
    (sets[0].Valid() && RunWrites(count, sets[0]) && RunsWrite(RunOf(count, sets[0]).value.count, sets[1..]))
  }

  ghost predicate RunWrites(count: nat, s: FieldSet)
    requires s.Valid()
  {
    var r := RunOf(count, s);
    r.Some? && Between(r.value, count, s.fields, if s.grids == [] then [] else s.grids[0])
  }

  lemma OneRunWrites(count: nat, s: FieldSet)
    requires CanWriteAll(s)
    ensures s.Valid() && RunWrites(count, s)
  {
    SetRunWrites(count, s.fields, s.grids, if s.grids == [] then [] else s.grids[0], |s.fields|);
    assert s.fields[..|s.fields|] == s.fields && s.grids[..|s.grids|] == s.grids;
  }

  lemma {:induction false} EveryRunWrites(count: nat, sets: seq<FieldSet>)
    requires forall s :: s in sets ==> CanWriteAll(s)
    ensures RunsWrite(count, sets)
    decreases |sets|
  {
    if sets != [] {
      OneRunWrites(count, sets[0]);
      EveryRunWrites(RunOf(count, sets[0]).value.count, sets[1..]);
    }
  }

  // ---------------------------------------------------------------------------
  // Where the values stand in the file
  // ---------------------------------------------------------------------------

  ghost predicate ValueIs(data: seq<real>, x: nat, v: real) { x < |data| && data[x] == v }

  /** By the dimensions the file declares, level then point, the value at level j and
      point i is that of the field, whatever the field. */
  ghost predicate KeepsPlaces(points: nat, levels: nat) {
    forall cells: Cells, i: nat, j: nat :: Shaped(cells, points, levels) && i < points && j < levels ==>
      ValueIs(AtlasOrder(cells, points, levels), Flat(i, j, points), cells[i][j])
  }

  /** A file of a set of fields has values where its dimensions say exactly when there is
      one point or one level. */
  lemma SetKeepsPlacesIff(points: nat, levels: nat)
    requires points > 0 && levels > 0
    ensures KeepsPlaces(points, levels) <==> points == 1 || levels == 1
  {
    OrdersAgreeIff(points, levels);
    if points == 1 || levels == 1 {
      forall cells: Cells, i: nat, j: nat | Shaped(cells, points, levels) && i < points && j < levels
        ensures ValueIs(AtlasOrder(cells, points, levels), Flat(i, j, points), cells[i][j])
      {
        AtlasOrderAt(cells, points, levels, i, j);
      }
    } else {
      var cells :=
        seq(points,
            i requires 0 <= i < points => seq(levels, j requires 0 <= j < levels => Flat(j, i, levels) as real));
      AtlasOrderAt(cells, points, levels, 0, 1);
      assert cells[1][0] == levels as real && cells[0][1] == 1.0;
      assert !ValueIs(AtlasOrder(cells, points, levels), Flat(1, 0, points), cells[1][0]);
    }
  }

  // ---------------------------------------------------------------------------
  // The writer and its loop
  // ---------------------------------------------------------------------------

  method BuildCoordVariable(metadata: Metadata, name: string, size: nat) returns (v: Variable)
    ensures fresh(v) && v.Valid() && v.View() == CoordVariable(metadata.dimensions, name, size)
  {
    v := new Variable(name, DoubleType);
    var dimName := metadata.GetDimensionName(size);
    var ok := v.AddDimension(dimName, size);
  }

  method AddCoordVariable(metadata: Metadata, name: string, size: nat)
    requires metadata.Valid()
    modifies metadata`variables
    ensures metadata.Valid() && fresh(metadata.variables.Values - old(metadata.variables.Values))
    ensures metadata.View() == old(metadata.View()).AddVariable(CoordVariable(metadata.dimensions, name, size))
  {
    ghost var views := ViewsOf(metadata.variables);
    var v := BuildCoordVariable(metadata, name, size);
    assert ViewsOf(metadata.variables) == views;
    metadata.AddVariable(v);
  }

  method AddCoordContainers(data: Data, coords: seq<Point>)
    modifies data
    ensures data.containers ==
              WithContainer(WithContainer(old(data.containers), Store.Container(LON_NAME, DoubleType, Lons(coords))),
                                             Store.Container(LAT_NAME, DoubleType, Lats(coords)))
  {
    var lons, lats := [], [];
    for i := 0 to |coords|
      invariant lons == Lons(coords[..i]) && lats == Lats(coords[..i])
    {
      lons, lats := lons + [coords[i].lon], lats + [coords[i].lat];
    }
    assert coords[..|coords|] == coords;
    data.AddContainer(Store.Container(LON_NAME, DoubleType, lons));
    data.AddContainer(Store.Container(LAT_NAME, DoubleType, lats));
  }

  method PopulateSetContainer(field: Field) returns (c: Store.Container)
    ensures c == SetContainer(field.View())
  {
    var n, levels := field.values.Length0, field.values.Length1;
    var dataVec := new real[n * levels](_ => 0.0);
    PopulateDataVecAtlasOrder(dataVec, field.values, (n, levels));
    AtlasOrderIs(dataVec[..], CellsOf(field.values), n, levels);
    c := Store.Container(field.name, field.typ, dataVec[..]);
  }

  method BuildSetVariable(metadata: Metadata, field: Field) returns (v: Variable, ok: bool)
    ensures fresh(v) && v.Valid() && v.name == field.name
    ensures var listed := ListDims(metadata.dimensions, [field.values.Length1, field.values.Length0], "");
            ok == listed.Some? && (ok ==> v.View() == VariableView(field.name, field.typ, listed.value, map[]))
  {
    v := new Variable(field.name, field.typ);
    var shape := [field.values.Length0, field.values.Length1];
    assert Reversed(shape) == [field.values.Length1, field.values.Length0];
    ok := AddVariableDimensions(metadata, v, shape, "");
  }

  method AddSetVariable(metadata: Metadata, field: Field) returns (ok: bool)
    requires metadata.Valid()
    modifies metadata`variables
    ensures metadata.Valid() && fresh(metadata.variables.Values - old(metadata.variables.Values))
    ensures var listed := ListDims(metadata.dimensions, [field.values.Length1, field.values.Length0], "");
            && ok == listed.Some?
            && var v := VariableView(field.name, field.typ, listed.GetOr([]), map[]);
               (ok ==> metadata.View() == old(metadata.View()).AddVariable(v))
  {
    ghost var views := ViewsOf(metadata.variables);
    var v;
    v, ok := BuildSetVariable(metadata, field);
    assert ViewsOf(metadata.variables) == views;
    if ok { metadata.AddVariable(v); }
  }

  method AddCoordsAndAttributes(metadata: Metadata, size: nat)
    requires metadata.Valid()
    modifies metadata`variables, metadata`globalAttrs
    ensures metadata.Valid() && fresh(metadata.variables.Values - old(metadata.variables.Values))
    ensures metadata.View() == WithCoords(old(metadata.View()), size)
  {
    AddCoordVariable(metadata, LON_NAME, size);
    AddCoordVariable(metadata, LAT_NAME, size);
    ghost var views := ViewsOf(metadata.variables);
    AddGlobalAttributes(metadata, false);
    assert ViewsOf(metadata.variables) == views;
  }

  method AddSetVariables(metadata: Metadata, field: Field, size: nat) returns (ok: bool)
    requires metadata.Valid()
    modifies metadata`variables, metadata`globalAttrs
    ensures metadata.Valid() && fresh(metadata.variables.Values - old(metadata.variables.Values))
    ensures var m := SetMeta(old(metadata.View()), metadata.dimensions, old(field.View()), size);
            ok == m.Some? && (ok ==> metadata.View() == m.value)
  {
    ok := AddSetVariable(metadata, field);
    if !ok { return; }
    AddCoordsAndAttributes(metadata, size);
  }

  class AtlasWriter {
    var dimCount: nat

    constructor ()
      ensures dimCount == 0
    {
      dimCount := 0;
    }

    method CreateDimensions(metadata: Metadata, sizes: seq<nat>)
      modifies this, metadata`dimensions
      ensures Made(metadata.dimensions, dimCount) == WithSizes(Made(old(metadata.dimensions), old(dimCount)), sizes)
    {
      ghost var st := Made(metadata.dimensions, dimCount);
      for i := 0 to |sizes|
        invariant Made(metadata.dimensions, dimCount) == WithSizes(st, sizes[..i])
      {
        assert sizes[..i + 1][..i] == sizes[..i];
        var dimName := metadata.GetDimensionName(sizes[i]);
        if dimName == NOT_FOUND {
          metadata.AddDimension(DimName(dimCount), sizes[i]);
          dimCount := dimCount + 1;
        }
      }
      assert sizes[..|sizes|] == sizes;
    }

    method AddSetMetadata(metadata: Metadata, field: Field, size: nat) returns (ok: bool)
      requires metadata.Valid()
      modifies this, metadata
      ensures metadata.Valid() && fresh(metadata.variables.Values - old(metadata.variables.Values))
      ensures var made :=
                WithSizes(Made(old(metadata.dimensions), old(dimCount)), [field.values.Length0, field.values.Length1]);
              var m := SetMeta(old(metadata.View()), made.dims, old(field.View()), size);
              && ok == m.Some? && dimCount == made.count && (ok ==> metadata.View() == m.value)
    {
      ghost var m := metadata.View();
      CreateDimensions(metadata, [field.values.Length0, field.values.Length1]);
      assert metadata.View() == m.(dims := metadata.dimensions);
      ok := AddSetVariables(metadata, field, size);
    }

    method PopulateFileDataWithField(fileData: FileData, field: Field, coords: seq<Point>) returns (ok: bool)
      requires fileData.Valid()
      modifies this, fileData.metadata, fileData.data
      ensures fileData.Valid()
      ensures var made :=
                WithSizes(Made(old(fileData.metadata.dimensions), old(dimCount)),
                          [field.values.Length0, field.values.Length1]);
              var p := SetPopulated(old(fileData.View()), made.dims, old(field.View()), coords);
              ok == p.Some? && dimCount == made.count && (ok ==> fileData.View() == p.value)
    {
      ok := AddSetMetadata(fileData.metadata, field, |coords|);
      if !ok { return; }
      ghost var m := fileData.metadata.View();
      AddSetData(fileData.data, field, coords);
      assert fileData.metadata.View() == m;
    }

    method WriteField(file: File, fileData: FileData, field: Field, coords: seq<Point>) returns (ok: bool)
      requires fileData.Valid()
      modifies this, file, fileData.metadata, fileData.data
      ensures fileData.Valid()
      ensures var s := SetStep(SetState(old(fileData.View()), old(file.nc), old(dimCount)), old(field.View()), coords);
              ok == s.Some? && (ok ==> SetState(fileData.View(), file.nc, dimCount) == s.value)
    {
      ghost var f := file.nc;
      ok := PopulateFileDataWithField(fileData, field, coords);
      if !ok { return; }
      assert file.nc == f;
      ok := Flush(file, fileData);
    }

    /** The fields are only read. */
    method WriteNext(file: File, fileData: FileData, fields: seq<Field>, i: nat, coords: seq<Point>) returns (ok: bool)
      requires fileData.Valid() && i < |fields|
      modifies this, file, fileData.metadata, fileData.data
      ensures fileData.Valid() && SetViews(fields) == old(SetViews(fields))
      ensures var s :=
                SetStep(SetState(old(fileData.View()), old(file.nc), old(dimCount)), old(SetViews(fields))[i], coords);
              ok == s.Some? && (ok ==> SetState(fileData.View(), file.nc, dimCount) == s.value)
    {
      ghost var views := SetViews(fields);
      ok := WriteField(file, fileData, fields[i], coords);
      assert SetViews(fields) == views;
    }

    method WriteFields(file: File, fileData: FileData, fields: seq<Field>, grids: seq<seq<Point>>) returns (ok: bool)
      requires fileData.Valid() && |grids| == |fields|
      modifies this, file, fileData.metadata, fileData.data
      ensures var s :=
                SetRun(SetState(old(fileData.View()), old(file.nc), old(dimCount)), old(SetViews(fields)), grids);
              ok == s.Some? && (ok ==> SetState(fileData.View(), file.nc, dimCount) == s.value)
    {
      ghost var start, views := SetState(fileData.View(), file.nc, dimCount), SetViews(fields);
      for i := 0 to |fields|
        invariant fileData.Valid() && SetViews(fields) == views
        invariant SetRun(start, views[..i], grids[..i]) == Some(SetState(fileData.View(), file.nc, dimCount))
      {
        SetRunNext(start, views, grids, i);
        ok := WriteNext(file, fileData, fields, i, grids[i]);
        if !ok {
          SetRunFails(start, views, grids, i + 1);
          return;
        }
      }
      assert views[..|fields|] == views && grids[..|fields|] == grids;
      ok := true;
    }

    /** writeFieldSet, for fields with the coordinates of their grids: a new store for every
        run, but the writer's counter goes on. No fields at all are an error. */
    method WriteFieldSet(file: File, fields: seq<Field>, grids: seq<seq<Point>>) returns (ok: bool)
      requires file.nc == EMPTY_FILE && |grids| == |fields|
      modifies this, file
      ensures var s := SetRun(SetState(EMPTY_FILE_VIEW, EMPTY_FILE, old(dimCount)), old(SetViews(fields)), grids);
              ok == (fields != [] && s.Some?) && (ok ==> file.nc == s.value.file && dimCount == s.value.count)
    {
      if |fields| == 0 { return false; }
      ghost var views := SetViews(fields);
      var fileData := new FileData();
      assert SetViews(fields) == views;
      ok := WriteFields(file, fileData, fields, grids);
    }
  }

  method AddSetData(data: Data, field: Field, coords: seq<Point>)
    modifies data
    ensures data.containers == SetData(old(data.containers), old(field.View()), coords)
  {
    AddCoordContainers(data, coords);
    var c := PopulateSetContainer(field);
    data.AddContainer(c);
  }

  ghost function SetViews(fields: seq<Field>): (r: seq<FieldView>)
    reads set f | f in fields :: f.values
    ensures |r| == |fields| && ValidViews(r)
    ensures forall i :: 0 <= i < |fields| ==> r[i] == fields[i].View()
  {
    if fields == [] then [] else SetViews(fields[..|fields| - 1]) + [fields[|fields| - 1].View()]
  }
}
