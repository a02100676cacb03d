/** Opening a file: its metadata, the data of its mesh and levels, the map between its
    points and the grid's, and the naming it follows (initialiseFile and
    createLfricAtlasMap of src/monio/Monio.cc). */
module FileInit {
  import opened Options
  import opened SortedKeys
  import opened AddIfAbsent
  import opened Store
  import opened NetCdf
  import opened Transfer
  import opened FieldWriter
  import opened NearestMap
  import opened DateTimes

  const MESH_TERM := "Mesh2d"
  const VERT_FULL_NAME := "full_levels"
  const VERT_HALF_NAME := "half_levels"
  const FACE_X := "Mesh2d_face_x"
  const FACE_Y := "Mesh2d_face_y"
  const COORD_NAMES := [FACE_Y, FACE_X]

  predicate Contains(s: string, term: string) {
    |term| <= |s| && (s[..|term|] == term || Contains(s[1..], term))
  }

  ghost predicate TermAt(s: string, term: string, i: nat) { i + |term| <= |s| && s[i..i + |term|] == term }

  /** A name contains the term if it has it anywhere. */
  lemma {:induction false} ContainsIff(s: string, term: string)
    ensures Contains(s, term) <==> exists i: nat :: TermAt(s, term, i)
    decreases |s|
  {
    if |term| <= |s| && s[..|term|] == term {
      assert TermAt(s, term, 0);
    } else if |term| <= |s| {
      ContainsIff(s[1..], term);
      if i: nat :| TermAt(s[1..], term, i) { assert TermAt(s, term, i + 1); }
      if i: nat :| TermAt(s, term, i) { assert TermAt(s[1..], term, i - 1); }
    }
  }

  function MeshNames(names: set<string>): set<string> { set k | k in names && Contains(k, MESH_TERM) }

  // ---------------------------------------------------------------------------
  // Walking a map in order
  // ---------------------------------------------------------------------------

  function Chosen(keys: seq<string>, wanted: set<string>): seq<string> {
    if keys == [] then []
    else Chosen(keys[..|keys| - 1], wanted) + (if keys[|keys| - 1] in wanted then [keys[|keys| - 1]] else [])
  }

  lemma {:induction false} ChosenHead(keys: seq<string>, wanted: set<string>)
    requires keys != []
    ensures Chosen(keys, wanted) == (if keys[0] in wanted then [keys[0]] else []) + Chosen(keys[1..], wanted)
    decreases |keys|
  {
    if |keys| > 1 {
      ChosenHead(keys[..|keys| - 1], wanted);
      assert keys[1..][..|keys| - 2] == keys[..|keys| - 1][1..];
    }
  }

  /** Choosing from a walk is walking through what is chosen. */
  lemma {:induction false} ChosenIsSorted(s: set<string>, wanted: set<string>)
    ensures Chosen(Sorted(s), wanted) == Sorted(s * wanted)
    decreases s
  {
    if s == {} {
      assert s * wanted == {};
    } else {
      var k := Least(s);
      ChosenIsSorted(s - {k}, wanted);
      ChosenHead(Sorted(s), wanted);
      assert (s - {k}) * wanted == s * wanted - {k};
      if k in wanted {
        LeastIsUnique(s * wanted, k, Least(s * wanted));
      } else {
        assert s * wanted - {k} == s * wanted;
      }
    }
  }

  lemma {:induction false} LessAfterPrefix(p: string, a: string, b: string)
    ensures Less(p + a, p + b) <==> Less(a, b)
    decreases |p|
  {
    if p == "" {
      assert p + a == a && p + b == b;
    } else {
      LessAfterPrefix(p[1..], a, b);
      assert (p + a)[1..] == p[1..] + a && (p + b)[1..] == p[1..] + b;
    }
  }

  lemma SortedPair(a: string, b: string)
    requires Less(a, b)
    ensures Sorted({a, b}) == [a, b]
  {
    LessIsTotal(a, b);
    LeastIsUnique({a, b}, a, Least({a, b}));
    assert {a, b} - {a} == {b};
    LeastIsUnique({b}, b, Least({b}));
    assert {b} - {b} == {};
    assert Sorted({b}) == [b] + Sorted({});
  }

  lemma FacesInOrder()
    ensures Less(FACE_X, FACE_Y)
  {
    LessAfterPrefix("Mesh2d_face_", "x", "y");
    assert FACE_X == "Mesh2d_face_" + "x" && FACE_Y == "Mesh2d_face_" + "y";
  }

  method FindVariableNames(metadata: Metadata) returns (names: seq<string>)
    ensures names == Sorted(MeshNames(metadata.variables.Keys))
  {
    var keys := Sorted(metadata.variables.Keys);
    ghost var wanted := MeshNames(metadata.variables.Keys);
    SortedHasKeys(metadata.variables.Keys);
    names := [];
    for i := 0 to |keys|
      invariant names == Chosen(keys[..i], wanted)
    {
      assert keys[..i + 1][..i] == keys[..i];
      if Contains(keys[i], MESH_TERM) { names := names + [keys[i]]; }
    }
    assert keys[..|keys|] == keys;
    ChosenIsSorted(metadata.variables.Keys, wanted);
    assert metadata.variables.Keys * wanted == wanted;
  }

  // ---------------------------------------------------------------------------
  // Coordinates and the map
  // ---------------------------------------------------------------------------

  type Tree = ClosestPoint<Point>

  function Picked(data: Containers, names: seq<string>): seq<Container> {
    if names == [] then []
    else
      var k := names[|names| - 1];
      Picked(data, names[..|names| - 1]) + (if k in data then [data[k]] else [])
  }

  lemma PickedNext(data: Containers, keys: seq<string>, wanted: set<string>, i: nat)
    requires i < |keys| && keys[i] in data
    ensures Picked(data, Chosen(keys[..i + 1], wanted)) ==
            Picked(data, Chosen(keys[..i], wanted)) + (if keys[i] in wanted then [data[keys[i]]] else [])
  {
    assert keys[..i + 1][..i] == keys[..i];
    var names := Chosen(keys[..i], wanted);
    assert names + [] == names && (names + [keys[i]])[..|names|] == names;
    assert Picked(data, names) + [] == Picked(data, names);
  }

  /** Two names must be given; a name without a container is passed over. */
  method GetCoordData(data: Containers, coordNames: seq<string>) returns (r: Option<seq<Container>>)
    ensures r == if |coordNames| == 2 then Some(Picked(data, Sorted(data.Keys * set k | k in coordNames))) else None
  {
    if |coordNames| != 2 { return None; }
    var keys := Sorted(data.Keys);
    ghost var wanted := set k | k in coordNames;
    SortedHasKeys(data.Keys);
    var coords: seq<Container> := [];
    for i := 0 to |keys|
      invariant coords == Picked(data, Chosen(keys[..i], wanted))
    {
      PickedNext(data, keys, wanted, i);
      if keys[i] in coordNames { coords := coords + [data[keys[i]]]; }
    }
    assert keys[..|keys|] == keys;
    ChosenIsSorted(data.Keys, wanted);
    return Some(coords);
  }

  lemma PairInOrder(data: Containers, a: string, b: string)
    requires Less(a, b) && a in data && b in data
    ensures Sorted(data.Keys * set k | k in [b, a]) == [a, b] && Picked(data, [a, b]) == [data[a], data[b]]
  {
    SortedPair(a, b);
    assert (data.Keys * set k | k in [b, a]) == {a, b};
    assert [a, b][..1] == [a] && [a][..0] == [];
    assert Picked(data, [a]) == [data[a]];
  }

  /** The smaller name comes first, and that is the longitude's, although the list of
      coordinate names begins with the other. */
  lemma CoordsInOrder(data: Containers)
    requires FACE_X in data && FACE_Y in data
    ensures Sorted(data.Keys * set k | k in COORD_NAMES) == [FACE_X, FACE_Y]
    ensures Picked(data, [FACE_X, FACE_Y]) == [data[FACE_X], data[FACE_Y]]
  {
    FacesInOrder();
    PairInOrder(data, FACE_X, FACE_Y);
  }

  /** Coordinates must be floats; fewer latitudes than longitudes are not handled. */
  function PointsOf(x: seq<real>, y: seq<real>): (r: seq<Point>)
    requires |x| <= |y|
    ensures |r| == |x|
  {
    seq(|x|, i requires 0 <= i < |x| => Point(x[i], y[i]))
  }

  function LfricCoords(x: Container, y: Container): Option<seq<Point>> {
    if x.typ != FloatType || y.typ != FloatType || |y.data| < |x.data| then None
    else Some(PointsOf(x.data, y.data))
  }

  /** Two containers must be given. */
  method GetLfricCoords(coords: seq<Container>) returns (r: Option<seq<Point>>)
    ensures r == if |coords| == 2 then LfricCoords(coords[0], coords[1]) else None
    ensures r.Some? ==> |coords| == 2 && |r.value| == |coords[0].data| <= |coords[1].data|
    ensures r.Some? ==> forall i :: 0 <= i < |r.value| ==>
              r.value[i].lon == coords[0].data[i] && r.value[i].lat == coords[1].data[i]
  {
    if |coords| != 2 { return None; }
    if coords[0].typ != FloatType || coords[1].typ != FloatType { return None; }
    var x, y := coords[0].data, coords[1].data;
    if |y| < |x| { return None; }
    var points := [];
    for i := 0 to |x|
      invariant |points| == i && forall h :: 0 <= h < i ==> points[h] == Point(x[h], y[h])
    {
      points := points + [Point(x[i], y[i])];
    }
    assert points == LfricCoords(coords[0], coords[1]).value;
    return Some(points);
  }

  ghost function CoordsOf(data: Containers): Option<seq<Point>> {
    if FACE_X in data && FACE_Y in data then LfricCoords(data[FACE_X], data[FACE_Y]) else None
  }

  /** The map a store's coordinates give. */
  ghost function MapOf(data: Containers, tree: Tree, atlas: seq<Point>): Option<seq<nat>> {
    match CoordsOf(data)
    case None => None
    case Some(lfric) => NearestMap.LfricAtlasMap(tree, atlas, lfric)
  }

  // ---------------------------------------------------------------------------
  // Opening a file
  // ---------------------------------------------------------------------------

  function StartNames(names: set<string>): set<string> { MeshNames(names) + {VERT_FULL_NAME, VERT_HALF_NAME} }

  /** What one more reading of these variables adds. */
  ghost function WithData(f: NcFile, fv: FileView, names: set<string>): Option<FileView> {
    if !(names <= DatumNames(f, fv.meta.vars)) then None
    else Some(fv.(data := Restricted(ContainersOf(f, fv.meta.vars), names) + fv.data))
  }

  /** Reading adds the data of these variables and changes none that are there. */
  lemma ReadingKeeps(f: NcFile, fv: FileView, names: set<string>)
    requires WithData(f, fv, names).Some?
    ensures var r := WithData(f, fv, names).value;
            && r.data.Keys == fv.data.Keys + names && r == fv.(data := r.data)
            && forall k :: k in fv.data ==> r.data[k] == fv.data[k]
  {
  }

  ghost function WithMap(f: NcFile, fv: FileView, tree: Tree, atlas: seq<Point>): Option<FileView> {
    if fv.lfricMap != [] then Some(fv)
    else
      match WithData(f, fv, {FACE_X, FACE_Y})
      case None => None
      case Some(r) =>
        match MapOf(r.data, tree, atlas)
        case None => None
        case Some(m) => Some(r.(lfricMap := m))
  }

  ghost function WithMesh(f: NcFile, fv: FileView, tree: Tree, atlas: seq<Point>): Option<FileView> {
    match WithData(f, fv, StartNames(fv.meta.vars.Keys))
    case None => None
    case Some(r) => WithMap(f, r, tree, atlas)
  }

  /** The store of a file that has been opened, unless something it needs is missing. */
  ghost function Initialised(f: NcFile, tree: Tree, atlas: seq<Point>): Option<FileView>
    requires f.DimsKnown()
  {
    if !Readable(f) then None else WithMesh(f, EMPTY_FILE_VIEW.(meta := MetaWith(EMPTY_META, f)), tree, atlas)
  }

  lemma NamesInTurn<V>(into: map<string, V>, from: map<string, V>, names: seq<string>, wanted: set<string>,
                       good: set<string>)
    requires forall k :: k in names <==> k in wanted
    ensures AllOf(names, good) <==> wanted <= good
    ensures (forall k :: k in names ==> k in from) ==> AddAll(into, from, names) == Restricted(from, wanted) + into
  {
    AllOfIs(names, good);
    if forall k :: k in names ==> k in from {
      AddAllIs(into, from, names);
      assert (set k | k in names) == wanted;
    }
  }

  method ReadNamed(file: File, fileData: FileData, names: seq<string>, ghost wanted: set<string>) returns (ok: bool)
    requires fileData.Valid() && forall k :: k in names <==> k in wanted
    modifies fileData.data
    ensures fileData.Valid()
    ensures var r := WithData(file.nc, old(fileData.View()), wanted);
            ok == r.Some? && (ok ==> fileData.View() == r.value)
  {
    ghost var fv := fileData.View();
    NamesInTurn(fv.data, ContainersOf(file.nc, fv.meta.vars), names, wanted, DatumNames(file.nc, fv.meta.vars));
    ok := ReadFullData(file, fileData, names);
    assert fileData.metadata.View() == fv.meta;
  }

  lemma WithDataTwice(f: NcFile, fv: FileView, a: set<string>, b: set<string>)
    ensures WithData(f, fv, a).None? ==> WithData(f, fv, a + b).None?
    ensures WithData(f, fv, a).Some? ==> WithData(f, WithData(f, fv, a).value, b) == WithData(f, fv, a + b)
  {
    RestrictedTwice(ContainersOf(f, fv.meta.vars), fv.data, a, b);
  }

  lemma RestrictedTwice<V>(from: map<string, V>, into: map<string, V>, a: set<string>, b: set<string>)
    ensures Restricted(from, b) + (Restricted(from, a) + into) == Restricted(from, a + b) + into
  {
  }

  method ReadOne(file: File, fileData: FileData, varName: string) returns (ok: bool)
    requires fileData.Valid()
    modifies fileData.data
    ensures fileData.Valid()
    ensures var r := WithData(file.nc, old(fileData.View()), {varName});
            ok == r.Some? && (ok ==> fileData.View() == r.value)
  {
    ghost var fv := fileData.View();
    ok := ReadFullDatum(file, fileData, varName);
    if ok {
      AddedOne(fv.data, ContainersOf(file.nc, fv.meta.vars), varName);
      assert fileData.metadata.View() == fv.meta;
    }
  }

  lemma AddedOne<V>(into: map<string, V>, from: map<string, V>, k: string)
    ensures k in from ==> IfAbsent(into, k, from[k]) == Restricted(from, {k}) + into
  {
  }

  lemma StartDataInSteps(f: NcFile, fv: FileView)
    ensures var mesh := MeshNames(fv.meta.vars.Keys);
            var (a, b, c) :=
              (WithData(f, fv, mesh), WithData(f, fv, mesh + {VERT_FULL_NAME}),
               WithData(f, fv, StartNames(fv.meta.vars.Keys)));
            && (a.None? ==> c.None?) && (a.Some? ==> WithData(f, a.value, {VERT_FULL_NAME}) == b)
            && (b.None? ==> c.None?) && (b.Some? ==> WithData(f, b.value, {VERT_HALF_NAME}) == c)
  {
    var mesh := MeshNames(fv.meta.vars.Keys);
    WithDataTwice(f, fv, mesh, {VERT_FULL_NAME});
    WithDataTwice(f, fv, mesh + {VERT_FULL_NAME}, {VERT_HALF_NAME});
    assert StartNames(fv.meta.vars.Keys) == mesh + {VERT_FULL_NAME} + {VERT_HALF_NAME};
  }

  method ReadStartData(file: File, fileData: FileData) returns (ok: bool)
    requires fileData.Valid()
    modifies fileData.data
    ensures fileData.Valid()
    ensures var r := WithData(file.nc, old(fileData.View()), StartNames(old(fileData.View()).meta.vars.Keys));
            ok == r.Some? && (ok ==> fileData.View() == r.value)
  {
    ghost var fv := fileData.View();
    ghost var mesh := MeshNames(fv.meta.vars.Keys);
    StartDataInSteps(file.nc, fv);
    var meshVars := FindVariableNames(fileData.metadata);
    SortedHasKeys(mesh);
    ok := ReadNamed(file, fileData, meshVars, mesh);
    if !ok { return; }
    assert fileData.View() == WithData(file.nc, fv, mesh).value;
    ok := ReadOne(file, fileData, VERT_FULL_NAME);
    if !ok { return; }
    assert fileData.View() == WithData(file.nc, fv, mesh + {VERT_FULL_NAME}).value;
    ok := ReadOne(file, fileData, VERT_HALF_NAME);
  }

  method FindCoords(data: Containers) returns (r: Option<seq<Point>>)
    requires FACE_X in data && FACE_Y in data
    ensures r == CoordsOf(data)
  {
    CoordsInOrder(data);
    var coords := GetCoordData(data, COORD_NAMES);
    r := GetLfricCoords(coords.value);
  }

  method ReadCoords(file: File, fileData: FileData) returns (r: Option<seq<Point>>)
    requires fileData.Valid()
    modifies fileData.data
    ensures fileData.Valid()
    ensures var w := WithData(file.nc, old(fileData.View()), {FACE_X, FACE_Y});
            if w.None? then r.None? else fileData.View() == w.value && r == CoordsOf(w.value.data)
  {
    ghost var fv := fileData.View();
    var ok := ReadNamed(file, fileData, COORD_NAMES, {FACE_X, FACE_Y});
    if !ok { return None; }
    assert fileData.View() == WithData(file.nc, fv, {FACE_X, FACE_Y}).value;
    r := FindCoords(fileData.data.containers);
  }

  method CreateLfricAtlasMap(file: File, fileData: FileData, tree: Tree, atlas: seq<Point>) returns (ok: bool)
    requires fileData.Valid()
    modifies fileData, fileData.data
    ensures fileData.Valid()
    ensures var r := WithMap(file.nc, old(fileData.View()), tree, atlas);
            ok == r.Some? && (ok ==> fileData.View() == r.value)
  {
    ok := true;
    if |fileData.lfricAtlasMap| == 0 {
      var lfric := ReadCoords(file, fileData);
      if lfric.None? { return false; }
      var m := NearestMap.CreateLfricAtlasMap(tree, atlas, lfric.value);
      if m.None? { return false; }
      fileData.SetLfricAtlasMap(m.value);
    }
  }

  /** The convention a store's attributes name, LFRic if they name none; an attribute of
      that name that is no string is not handled. */
  function IsLfricConvention(attrs: map<string, Attribute>): Option<bool> {
    if CONVENTION_NAME !in attrs then Some(true)
    else
      match attrs[CONVENTION_NAME]
      case StringAttr(s) => Some(s != ConventionValue(false))
      case _ => None
  }

  method CreateFileData(file: File) returns (fileData: FileData, ok: bool)
    requires file.nc.DimsKnown()
    ensures fresh({fileData, fileData.data, fileData.metadata}) && fileData.Valid() && ok == Readable(file.nc)
    ensures ok ==> fileData.View() == EMPTY_FILE_VIEW.(meta := MetaWith(EMPTY_META, file.nc))
  {
    fileData := new FileData();
    ok := file.ReadMetadata(fileData.metadata);
  }

  method ReadMesh(file: File, fileData: FileData, tree: Tree, atlas: seq<Point>) returns (ok: bool)
    requires fileData.Valid()
    modifies fileData, fileData.data
    ensures fileData.Valid()
    ensures var r := WithMesh(file.nc, old(fileData.View()), tree, atlas);
            ok == r.Some? && (ok ==> fileData.View() == r.value)
  {
    ok := ReadStartData(file, fileData);
    if !ok { return; }
    ok := CreateLfricAtlasMap(file, fileData, tree, atlas);
  }

  // ---------------------------------------------------------------------------
  // Date-times
  // ---------------------------------------------------------------------------

  /** The seconds of a time origin given as text, if it can be understood. */
  type Clock = string -> Option<int>

  /** The date-times of a store: its time variable must be there, with its origin and with
      data of double type for all of its size. */
  function TimesOf(fv: FileView, clock: Clock): Option<seq<int>> {
    if TIME_VAR_NAME !in fv.meta.vars || TIME_VAR_NAME !in fv.data then None
    else TimesFrom(fv.meta.vars[TIME_VAR_NAME], fv.data[TIME_VAR_NAME], clock)
  }

  function TimesFrom(v: VariableView, c: Container, clock: Clock): Option<seq<int>> {
    if c.typ != DoubleType || TIME_ORIGIN_NAME !in v.attrs || |c.data| < v.TotalSize() then None
    else
      match v.attrs[TIME_ORIGIN_NAME]
      case StringAttr(s) =>
        if clock(s).None? || !Countable(c.data[..v.TotalSize()]) then None
        else Some(DateTimesOf(clock(s).value, c.data[..v.TotalSize()]))
      case _ => None
  }

  method FindTimes(v: Variable, c: Container, clock: Clock) returns (r: Option<seq<int>>)
    ensures r == TimesFrom(v.View(), c, clock)
  {
    if c.typ != DoubleType || TIME_ORIGIN_NAME !in v.attributes { return None; }
    var size := v.GetTotalSize();
    if |c.data| < size { return None; }
    var attr := v.attributes[TIME_ORIGIN_NAME];
    if !attr.StringAttr? || clock(attr.s).None? { return None; }
    r := DateTimes.CreateDateTimes(clock(attr.s).value, c.data[..size]);
  }

  ghost function WithDateTimes(fv: FileView, clock: Clock): Option<FileView> {
    if fv.dateTimes != [] then Some(fv)
    else
      match TimesOf(fv, clock)
      case None => None
      case Some(t) => Some(fv.(dateTimes := t))
  }

  method CreateDateTimes(fileData: FileData, clock: Clock) returns (ok: bool)
    requires fileData.Valid()
    modifies fileData
    ensures fileData.Valid()
    ensures var r := WithDateTimes(old(fileData.View()), clock);
            ok == r.Some? && (ok ==> fileData.View() == r.value)
  {
    ok := true;
    if |fileData.dateTimes| == 0 {
      if TIME_VAR_NAME !in fileData.metadata.variables || TIME_VAR_NAME !in fileData.data.containers { return false; }
      var times :=
        FindTimes(fileData.metadata.variables[TIME_VAR_NAME], fileData.data.containers[TIME_VAR_NAME], clock);
      if times.None? { return false; }
      fileData.SetDateTimes(times.value);
    }
  }

  /** With the time variable read and the date-times made from it. */
  ghost function WithTimes(f: NcFile, fv: FileView, clock: Clock): Option<FileView> {
    match WithData(f, fv, {TIME_VAR_NAME})
    case None => None
    case Some(r) => WithDateTimes(r, clock)
  }

  method ReadTimes(file: File, fileData: FileData, clock: Clock) returns (ok: bool)
    requires fileData.Valid()
    modifies fileData, fileData.data
    ensures fileData.Valid()
    ensures var r := WithTimes(file.nc, old(fileData.View()), clock);
            ok == r.Some? && (ok ==> fileData.View() == r.value)
  {
    ok := ReadOne(file, fileData, TIME_VAR_NAME);
    if !ok { return; }
    ok := CreateDateTimes(fileData, clock);
  }

  /** The store of an opened file, with date-times if they are asked for. */
  ghost function InitialisedFor(f: NcFile, tree: Tree, atlas: seq<Point>, doCreateDateTimes: bool, clock: Clock)
    : Option<FileView>
    requires f.DimsKnown()
  {
    match Initialised(f, tree, atlas)
    case None => None
    case Some(fv) => if doCreateDateTimes then WithTimes(f, fv, clock) else Some(fv)
  }

  method OpenFile(file: File, tree: Tree, atlas: seq<Point>) returns (fileData: FileData, ok: bool)
    requires file.nc.DimsKnown()
    ensures fresh({fileData, fileData.data, fileData.metadata}) && fileData.Valid()
    ensures var r := Initialised(file.nc, tree, atlas);
            ok == r.Some? && (ok ==> fileData.View() == r.value)
  {
    fileData, ok := CreateFileData(file);
    if !ok { return; }
    ok := ReadMesh(file, fileData, tree, atlas);
  }

  /** The store, and the convention its attributes name. */
  method InitialiseFile(file: File, tree: Tree, atlas: seq<Point>, doCreateDateTimes: bool, clock: Clock)
    returns (fileData: FileData, isLfric: Option<bool>, ok: bool)
    requires file.nc.DimsKnown()
    ensures fresh({fileData, fileData.data, fileData.metadata}) && fileData.Valid()
    ensures var r := InitialisedFor(file.nc, tree, atlas, doCreateDateTimes, clock);
            ok == r.Some? && (ok ==> fileData.View() == r.value && isLfric == IsLfricConvention(r.value.meta.attrs))
  {
    isLfric := None;
    fileData, ok := OpenFile(file, tree, atlas);
    if !ok { return; }
    if doCreateDateTimes {
      ok := ReadTimes(file, fileData, clock);
      if !ok { return; }
    }
    isLfric := IsLfricConvention(fileData.metadata.globalAttrs);
  }
}
