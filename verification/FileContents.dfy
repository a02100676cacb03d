/** What written files hold and what opened files give, said of names, places and numbers
    alone: which variable has which field, what stands at each of its places, what its
    dimensions and attributes are called, and what the map and the date-times are made of. */
module FileContents {
  import opened Options
  import opened SortedKeys
  import opened AddIfAbsent
  import opened Store
  import opened NetCdf
  import opened DataOrder
  import opened FieldWriter
  import opened WriteRun
  import opened NearestMap
  import opened FileInit
  import opened FileSetup
  import opened RoundTrip
  import opened FieldSetRun
  import opened FieldReader
  import opened DateTimes
  import opened Transfer
  import FileCopy
  import Hyperslab

  // ---------------------------------------------------------------------------
  // The variable of a field
  // ---------------------------------------------------------------------------

  ghost predicate ValueStands(data: seq<real>, place: nat, value: real) { place < |data| && data[place] == value }

  /** Level by level, and the points of a level as the map has them; with skip, below all
      levels another copy of the lowest. */
  ghost predicate HoldsLevels(data: seq<real>, m: Map, field: FieldView, skip: nat) {
    && field.Valid() && field.points == |m| && |data| == |m| * (field.levels + skip) && (skip > 0 ==> field.levels > 0)
    && (forall i, j :: 0 <= i < |m| && 0 <= j < field.levels ==>
          ValueStands(data, m[i] + (j + skip) * |m|, field.cells[i][j]))
    && (skip > 0 ==> forall i :: 0 <= i < |m| ==> ValueStands(data, m[i], field.cells[i][0]))
  }

  ghost predicate SameType(n: NcType, t: DataType) {
    match t
    case IntType => n == NcInt
    case FloatType => n == NcFloat
    case DoubleType => n == NcDouble
  }

  /** Whether an LFRic file has a level below those of the field. */
  function SurfaceLevels(md: FieldMetadata, levels: nat): nat { if md.noFirstLevel && levels == 70 then 1 else 0 }

  lemma PlaceWritten(m: Map, cells: Cells, levels: nat, i: nat, j: nat)
    requires Permutation(m) && Shaped(cells, |m|, levels) && i < |m| && j < levels
    ensures ValueStands(DataOrder.Container(m, cells, levels), m[i] + j * |m|, cells[i][j])
  {
    FlatBound(m[i], j, |m|, levels);
    assert Flat(m[i], j, |m|) == m[i] + j * |m|;
  }

  /** These are the levels of the field, with skip from the second on, above a copy of the
      lowest. */
  ghost predicate Shifted(cells: Cells, levels: nat, field: FieldView, skip: nat) {
    && field.Valid() && Shaped(cells, field.points, levels) && levels == field.levels + skip
    && (forall i, j :: 0 <= i < field.points && 0 <= j < field.levels ==> cells[i][j + skip] == field.cells[i][j])
    && (skip > 0 ==> field.levels > 0 && forall i :: 0 <= i < field.points ==> cells[i][0] == field.cells[i][0])
  }

  lemma LevelsToWrite(field: FieldView, writeName: string, md: FieldMetadata, isLfric: bool)
    requires field.Valid() && ToWrite(field, writeName, md.noFirstLevel, isLfric).Some?
    ensures var w := ToWrite(field, writeName, md.noFirstLevel, isLfric).value;
            var skip := if isLfric then SurfaceLevels(md, field.levels) else 0;
            && w.Valid() && w.typ == field.typ && w.points == field.points && w.levels == field.levels + skip
            && Shifted(w.cells, w.levels, field, skip)
  {
  }

  lemma LevelsHeld(m: Map, data: seq<real>, cells: Cells, field: FieldView, skip: nat)
    requires field.points == |m| && Shifted(cells, field.levels + skip, field, skip)
    requires |data| == |m| * (field.levels + skip)
    requires forall i, j :: 0 <= i < |m| && 0 <= j < field.levels + skip ==>
               ValueStands(data, m[i] + j * |m|, cells[i][j])
    ensures HoldsLevels(data, m, field, skip)
  {
    forall i, j | 0 <= i < |m| && 0 <= j < field.levels
      ensures ValueStands(data, m[i] + (j + skip) * |m|, field.cells[i][j])
    {
      assert ValueStands(data, m[i] + (j + skip) * |m|, cells[i][j + skip]);
    }
    if skip > 0 {
      forall i | 0 <= i < |m| ensures ValueStands(data, m[i], field.cells[i][0]) {
        assert ValueStands(data, m[i] + 0 * |m|, cells[i][0]);
      }
    }
  }

  lemma ContainerHeld(m: Map, cells: Cells, levels: nat, field: FieldView, skip: nat)
    requires Permutation(m) && field.points == |m| && Shifted(cells, levels, field, skip)
    ensures HoldsLevels(DataOrder.Container(m, cells, levels), m, field, skip)
  {
    var data := DataOrder.Container(m, cells, levels);
    forall i, j | 0 <= i < |m| && 0 <= j < levels ensures ValueStands(data, m[i] + j * |m|, cells[i][j]) {
      PlaceWritten(m, cells, levels, i, j);
    }
    LevelsHeld(m, data, cells, field, skip);
  }

  lemma ValuesWritten(m: Map, field: FieldView, writeName: string, md: FieldMetadata, isLfric: bool)
    requires Permutation(m) && field.Valid() && field.points == |m|
    requires ToWrite(field, writeName, md.noFirstLevel, isLfric).Some?
    ensures var w := ToWrite(field, writeName, md.noFirstLevel, isLfric).value;
            HoldsLevels(DataOrder.Container(m, w.cells, w.levels), m, field,
                        if isLfric then SurfaceLevels(md, field.levels) else 0)
  {
    LevelsToWrite(field, writeName, md, isLfric);
    var w := ToWrite(field, writeName, md.noFirstLevel, isLfric).value;
    var skip := if isLfric then SurfaceLevels(md, field.levels) else 0;
    ContainerHeld(m, w.cells, w.levels, field, skip);
  }

  /** The dimension of a size: the one asked for, if it has that size, else the one whose
      name comes first. */
  ghost predicate IsDimension(dims: map<string, nat>, d: string, size: nat, vertical: string) {
    && d in dims && dims[d] == size
    && if vertical != "" && vertical in dims && dims[vertical] == size then d == vertical
       else forall k :: k in dims && dims[k] == size ==> k == d || Less(d, k)
  }

  /** First the dimension of levels, then that of points; a size that no dimension has is
      left out. */
  ghost predicate ListsSizes(dims: map<string, nat>, names: seq<string>, levels: nat, points: nat, vertical: string) {
    if HasSize(dims, levels) && HasSize(dims, points) then
      |names| == 2 && IsDimension(dims, names[0], levels, vertical) && IsDimension(dims, names[1], points, vertical)
    else if HasSize(dims, levels) then |names| == 1 && IsDimension(dims, names[0], levels, vertical)
    else if HasSize(dims, points) then |names| == 1 && IsDimension(dims, names[0], points, vertical)
    else names == []
  }

  lemma NameIsDimension(dims: map<string, nat>, size: nat, vertical: string)
    requires "NOT_FOUND" !in dims && HasSize(dims, size)
    ensures IsDimension(dims, DimNameFor(dims, size, vertical), size, vertical)
  {
    SizeHasName(dims, size, vertical);
  }

  lemma SizesAreInOrder(dims: map<string, nat>, levels: nat, points: nat, vertical: string)
    requires "NOT_FOUND" !in dims && ListDims(dims, [levels, points], vertical).Some?
    ensures ListsSizes(dims, DimNames(ListDims(dims, [levels, points], vertical).value), levels, points, vertical)
  {
    TwoSizesListed(dims, levels, points, vertical);
    SizeHasName(dims, levels, vertical);
    SizeHasName(dims, points, vertical);
    if HasSize(dims, levels) { NameIsDimension(dims, levels, vertical); }
    if HasSize(dims, points) { NameIsDimension(dims, points, vertical); }
  }

  ghost predicate HasText(attrs: map<string, NcAttr>, name: string, text: string) {
    name in attrs && attrs[name] == NcText(text)
  }

  ghost predicate HasFieldAttributes(attrs: map<string, NcAttr>, md: FieldMetadata) {
    && attrs.Keys == {"standard_name", "long_name", "units", "mesh", "location", "online_operation",
                      "interval_operation", "interval_write", "cell_methods", "coordinates"}
    && HasText(attrs, "standard_name", md.jediName) && HasText(attrs, "long_name", md.jediName + "_inc")
    && HasText(attrs, "units", md.units) && HasText(attrs, "mesh", "Mesh2d") && HasText(attrs, "location", "face")
    && HasText(attrs, "online_operation", "instant") && HasText(attrs, "interval_operation", "3600 s")
    && HasText(attrs, "interval_write", "3600 s") && HasText(attrs, "cell_methods", "time: point")
    && HasText(attrs, "coordinates", "Mesh2d_face_y Mesh2d_face_x")
  }

  /** The file has this field under that name, in full. */
  ghost predicate HoldsField(g: NcFile, name: string, vertical: string, md: FieldMetadata, field: FieldView, m: Map,
                             skip: nat)
  {
    && name in g.vars && SameType(g.vars[name].typ, field.typ) && HoldsLevels(g.vars[name].data, m, field, skip)
    && HasFieldAttributes(g.vars[name].attrs, md)
    && ("NOT_FOUND" !in g.dims ==>
        ListsSizes(g.dims, g.vars[name].dims, field.levels + skip, field.points, vertical))
  }

  lemma AttributesWritten(md: FieldMetadata)
    ensures HasFieldAttributes(WriteAttrs(IncrementAttrs(md)), md)
  {
    assert |"standard_name"| == 13 && |"long_name"| == 9 && |"units"| == 5 && |"mesh"| == 4 && |"location"| == 8;
    assert |"online_operation"| == 16 && |"interval_operation"| == 18 && |"interval_write"| == 14;
    assert |"cell_methods"| == 12 && |"coordinates"| == 11;
  }

  lemma FieldHeld(g: NcFile, name: string, md: FieldMetadata, fields: map<string, FieldView>, m: Map, conv: Convention)
    requires ValidFields(fields) && Permutation(m) && Writes(g.dims, m, fields, md, conv) && name == WriteName(md, conv)
    requires name in g.vars && g.vars[name] == FieldNcVar(g.dims, m, fields, md, conv)
    ensures var field := fields[md.jediName];
            HoldsField(g, name, VertConfigName(md, conv), md, field, m,
                       if conv.isLfric then SurfaceLevels(md, field.levels) else 0)
  {
    var field, w := fields[md.jediName], FieldToWrite(fields, md, conv);
    ValuesWritten(m, field, name, md, conv.isLfric);
    LevelsToWrite(field, name, md, conv.isLfric);
    AttributesWritten(md);
    if "NOT_FOUND" !in g.dims { SizesAreInOrder(g.dims, w.levels, w.points, VertConfigName(md, conv)); }
  }

  /** Where each field stands in a written file. A state file has it under the LFRic name
      for reading, an increment file under the LFRic name for writing, and a file of JEDI
      names under the JEDI name, which is also the field's own. */
  ghost predicate FieldStands(g: NcFile, m: Map, md: FieldMetadata, field: FieldView, conv: Convention) {
    && (conv.isLfric && conv.isState ==>
        HoldsField(g, md.lfricReadName, md.lfricVertConfig, md, field, m, SurfaceLevels(md, field.levels)))
    && (conv.isLfric && !conv.isState ==>
        HoldsField(g, md.lfricWriteName, md.lfricVertConfig, md, field, m, SurfaceLevels(md, field.levels)))
    && (!conv.isLfric ==> HoldsField(g, md.jediName, md.jediVertConfig, md, field, m, 0) && field.name == md.jediName)
    && (conv.isLfric ==> !(md.noFirstLevel && field.levels == 71))
  }

  lemma StandsWhereHeld(g: NcFile, m: Map, md: FieldMetadata, fields: map<string, FieldView>, conv: Convention)
    requires ValidFields(fields) && Permutation(m) && Writes(g.dims, m, fields, md, conv)
    requires WriteName(md, conv) in g.vars && g.vars[WriteName(md, conv)] == FieldNcVar(g.dims, m, fields, md, conv)
    ensures FieldStands(g, m, md, fields[md.jediName], conv)
  {
    FieldHeld(g, WriteName(md, conv), md, fields, m, conv);
  }

  lemma FieldsStand(f: NcFile, tree: Tree, atlas: seq<Point>, fields: map<string, FieldView>, mds: seq<FieldMetadata>,
                    conv: Convention, i: nat)
    requires CanWrite(f, tree, atlas, fields, mds, conv) && i < |mds|
    ensures mds[i].jediName in fields
    ensures FieldStands(FileFor(f, tree, atlas, fields, mds, conv), MapFrom(f, tree, atlas), mds[i],
                        fields[mds[i].jediName], conv)
  {
    var store := StoreFor(f, tree, atlas, conv.isLfric);
    CanWriteRuns(f, tree, atlas, fields, mds, conv);
    RunFileHas(store, fields, mds, conv);
    StandsWhereHeld(FileFor(f, tree, atlas, fields, mds, conv), store.lfricMap, mds[i], fields, conv);
  }

  // ---------------------------------------------------------------------------
  // What else a written file holds
  // ---------------------------------------------------------------------------

  ghost predicate NamesConvention(attrs: map<string, NcAttr>, isLfric: bool) {
    && attrs.Keys == {"variable_convention", "produced_by"}
    && HasText(attrs, "variable_convention", if isLfric then "LFRic" else "JEDI")
    && HasText(attrs, "produced_by", "MONIO: Met Office NetCDF I/O")
  }

  lemma ConventionIsNamed(f: NcFile, tree: Tree, atlas: seq<Point>, fields: map<string, FieldView>,
                          mds: seq<FieldMetadata>, conv: Convention)
    requires CanWrite(f, tree, atlas, fields, mds, conv)
    ensures NamesConvention(FileFor(f, tree, atlas, fields, mds, conv).attrs, conv.isLfric)
  {
    WrittenFileIsReadable(f, tree, atlas, fields, mds, conv);
    AttrsOfRun(conv);
  }

  lemma AttrsOfRun(conv: Convention)
    ensures NamesConvention(RunAttrs(conv), conv.isLfric)
  {
    assert "variable_convention"[0] != "produced_by"[0];
  }

  /** The values first, first + 1, ... along a dimension of that name and size. */
  ghost predicate HoldsLevelsFrom(g: NcFile, name: string, size: nat, first: real) {
    && name in g.dims && g.dims[name] == size && name in g.vars
    && g.vars[name].typ == NcDouble && g.vars[name].dims == [name] && g.vars[name].attrs == map["name" := NcText(name)]
    && |g.vars[name].data| == size && forall k :: 0 <= k < size ==> g.vars[name].data[k] == first + k as real
  }

  lemma LevelIsWritten(name: string, size: nat, first: real)
    ensures AsWritten(LevelVariable(name, size), LevelContainer(name, size, first)) ==
            NcVar(NcDouble, [name], map["name" := NcText(name)], seq(size, i => first + i as real))
  {
  }

  lemma LevelsAdded(fv: FileView, name: string, size: nat, first: real)
    requires name !in fv.meta.vars && name !in fv.data && (name in fv.meta.dims ==> fv.meta.dims[name] == size)
    ensures var r := WithLevels(fv, name, size, first);
            && name in r.meta.dims && r.meta.dims[name] == size
            && name in r.meta.vars && r.meta.vars[name] == LevelVariable(name, size)
            && name in r.data && r.data[name] == LevelContainer(name, size, first)
    ensures var r := WithLevels(fv, name, size, first);
            && (forall k :: k != name ==> (k in r.meta.vars <==> k in fv.meta.vars) && (k in r.data <==> k in fv.data))
            && (forall k :: k != name && k in fv.meta.dims ==> k in r.meta.dims && r.meta.dims[k] == fv.meta.dims[k])
            && (forall k :: k != name && k in r.meta.dims ==> k in fv.meta.dims && r.meta.dims[k] == fv.meta.dims[k])
            && (forall k :: k != name && k in fv.meta.vars ==> r.meta.vars[k] == fv.meta.vars[k])
            && (forall k :: k != name && k in fv.data ==> r.data[k] == fv.data[k])
  {
  }

  lemma {:induction false} TermStarts(s: string, term: string)
    requires term != "" && Contains(s, term)
    ensures term[0] in s
    decreases |s|
  {
    if s[..|term|] == term {
      assert s[..|term|][0] == s[0];
    } else {
      TermStarts(s[1..], term);
      assert forall c :: c in s[1..] ==> c in s;
    }
  }

  lemma NotOfMesh(names: set<string>, k: string)
    requires 'M' !in k
    ensures k !in MeshNames(names)
  {
    if Contains(k, MESH_TERM) { TermStarts(k, MESH_TERM); }
  }

  lemma NotNeeded(k: string)
    requires |k| > 13
    ensures k !in {VERT_FULL_NAME, VERT_HALF_NAME} && k !in {FACE_X, FACE_Y}
  {
    assert |VERT_FULL_NAME| == 11 && |VERT_HALF_NAME| == 11 && |FACE_X| == 13 && |FACE_Y| == 13;
  }

  lemma OutsideAll<T>(a: set<T>, b: set<T>, c: set<T>, k: T)
    requires k !in a && k !in b && k !in c
    ensures k !in (a + b) + c
  {
  }

  lemma OutsideIsNotKept<V>(m: map<string, V>, names: set<string>, k: string)
    requires k !in names
    ensures k !in Restricted(m, names)
  {
  }

  lemma NotOpened(f: NcFile, k: string)
    requires f.DimsKnown() && |k| > 13 && 'M' !in k
    ensures k !in OpenedData(f)
  {
    NotOfMesh(f.vars.Keys, k);
    NotNeeded(k);
    OutsideAll(MeshNames(f.vars.Keys), {VERT_FULL_NAME, VERT_HALF_NAME}, {FACE_X, FACE_Y}, k);
    OutsideIsNotKept(ContainersOf(f, VariablesOf(f)), OpenedNames(f), k);
  }

  lemma LevelNamesAreNew(f: NcFile)
    requires f.DimsKnown()
    ensures "full_levels_no_surf" !in OpenedData(f) && "half_levels_with_top" !in OpenedData(f)
  {
    NotOpened(f, "full_levels_no_surf");
    NotOpened(f, "half_levels_with_top");
  }

  lemma JediLevelsInStore(fv: FileView)
    requires LevelsFree(fv.meta.dims) && "full_levels_no_surf" !in fv.data && "half_levels_with_top" !in fv.data
    ensures var r := Prepared(fv, false);
            && "full_levels_no_surf" in r.meta.dims && r.meta.dims["full_levels_no_surf"] == 70
            && "half_levels_with_top" in r.meta.dims && r.meta.dims["half_levels_with_top"] == 71
            && "full_levels_no_surf" in r.meta.vars && "half_levels_with_top" in r.meta.vars
            && r.meta.vars["full_levels_no_surf"] == LevelVariable("full_levels_no_surf", 70)
            && r.meta.vars["half_levels_with_top"] == LevelVariable("half_levels_with_top", 71)
            && "full_levels_no_surf" in r.data && "half_levels_with_top" in r.data
            && r.data["full_levels_no_surf"] == LevelContainer("full_levels_no_surf", 70, 1.0)
            && r.data["half_levels_with_top"] == LevelContainer("half_levels_with_top", 71, 0.5)
  {
    assert "full_levels_no_surf"[0] != "half_levels_with_top"[0];
    LevelsAdded(Cleaned(fv), "full_levels_no_surf", 70, 1.0);
    LevelsAdded(WithLevels(Cleaned(fv), "full_levels_no_surf", 70, 1.0), "half_levels_with_top", 71, 0.5);
  }

  lemma LevelHeld(g: NcFile, store: FileView, name: string, size: nat, first: real)
    requires name in g.dims && g.dims[name] == size && name in store.meta.vars && name in store.data && name in g.vars
    requires store.meta.vars[name] == LevelVariable(name, size) && store.data[name] == LevelContainer(name, size, first)
    requires g.vars[name] == AsWritten(store.meta.vars[name], store.data[name])
    ensures HoldsLevelsFrom(g, name, size, first)
  {
    LevelIsWritten(name, size, first);
  }

  /** A file of JEDI names has both level variables. */
  lemma JediLevelsStand(f: NcFile, tree: Tree, atlas: seq<Point>, fields: map<string, FieldView>,
                        mds: seq<FieldMetadata>, conv: Convention)
    requires CanWrite(f, tree, atlas, fields, mds, conv) && !conv.isLfric
    ensures var g := FileFor(f, tree, atlas, fields, mds, conv);
            && HoldsLevelsFrom(g, "full_levels_no_surf", 70, 1.0)
            && HoldsLevelsFrom(g, "half_levels_with_top", 71, 0.5)
  {
    var store, g := StoreFor(f, tree, atlas, false), FileFor(f, tree, atlas, fields, mds, conv);
    CanWriteRuns(f, tree, atlas, fields, mds, conv);
    RunFileHas(store, fields, mds, conv);
    LevelNamesAreNew(f);
    FileCopy.MetadataOfCopy(f);
    JediLevelsInStore(Opened(f, tree, atlas));
    LevelHeld(g, store, "full_levels_no_surf", 70, 1.0);
    LevelHeld(g, store, "half_levels_with_top", 71, 0.5);
  }

  /** Cleaning takes away what is called after time and tiles, and no other data. */
  lemma NothingOfTime(fv: FileView)
    ensures var r := Cleaned(fv);
            && "time_counter" !in r.meta.dims && "surface_tiles" !in r.meta.dims
            && "time_instant" !in r.meta.vars && "tile_fraction" !in r.meta.vars
            && "time_instant" !in r.data && "tile_fraction" !in r.data && r.meta.attrs == map[]
            && (forall k :: k in fv.data && k != "time_instant" && k != "tile_fraction" ==>
                  k in r.data && r.data[k] == fv.data[k] && (k in fv.meta.vars ==> k in r.meta.vars))
            && (forall d :: d in fv.meta.dims && d != "time_counter" && d != "surface_tiles" ==>
                  d in r.meta.dims && r.meta.dims[d] == fv.meta.dims[d])
  {
  }

  // ---------------------------------------------------------------------------
  // The file of a field set
  // ---------------------------------------------------------------------------

  ghost predicate HoldsCoordinate(g: NcFile, name: string, coords: seq<Point>, value: Point -> real) {
    && name in g.vars && g.vars[name].typ == NcDouble && |g.vars[name].dims| == 1
    && g.vars[name].dims[0] in g.dims && g.dims[g.vars[name].dims[0]] == |coords| == |g.vars[name].data|
    && forall i :: 0 <= i < |coords| ==> g.vars[name].data[i] == value(coords[i])
  }

  /** Dimensions by level and point; all levels of a point, then those of the next. */
  ghost predicate HoldsSetField(g: NcFile, field: FieldView) {
    && field.Valid() && field.name in g.vars && SameType(g.vars[field.name].typ, field.typ)
    && |g.vars[field.name].dims| == 2
    && g.vars[field.name].dims[0] in g.dims && g.dims[g.vars[field.name].dims[0]] == field.levels
    && g.vars[field.name].dims[1] in g.dims && g.dims[g.vars[field.name].dims[1]] == field.points
    && |g.vars[field.name].data| == field.points * field.levels
    && forall i, j :: 0 <= i < field.points && 0 <= j < field.levels ==>
         ValueStands(g.vars[field.name].data, j + i * field.levels, field.cells[i][j])
  }

  lemma CoordinatesStand(g: NcFile, dims: map<string, nat>, coords: seq<Point>)
    requires g.dims == dims && Known(dims, |coords|) && Within(CoordVars(dims, coords), g.vars)
    ensures HoldsCoordinate(g, "longitude", coords, (q: Point) => q.lon)
    ensures HoldsCoordinate(g, "latitude", coords, (q: Point) => q.lat)
  {
    assert "longitude"[1] != "latitude"[1];
    var v := CoordVars(dims, coords);
    assert "longitude" in v && "latitude" in v;
  }

  lemma SetFieldStands(g: NcFile, dims: map<string, nat>, field: FieldView)
    requires field.Valid() && g.dims == dims && Known(dims, field.levels) && Known(dims, field.points)
    requires field.name in g.vars && g.vars[field.name] == SetNcVar(dims, field)
    ensures HoldsSetField(g, field)
  {
    forall i, j | 0 <= i < field.points && 0 <= j < field.levels
      ensures ValueStands(g.vars[field.name].data, j + i * field.levels, field.cells[i][j])
    {
      AtlasOrderAt(field.cells, field.points, field.levels, i, j);
      assert Flat(j, i, field.levels) == j + i * field.levels;
    }
  }

  lemma SetFileHas(dims: map<string, nat>, fields: seq<FieldView>, coords: seq<Point>)
    requires CanWriteSet(fields, coords) && fields != []
    ensures var vars := SetFile(dims, fields, coords).vars;
            && Within(CoordVars(dims, coords), vars)
            && (forall i :: 0 <= i < |fields| ==>
                  fields[i].name in vars && vars[fields[i].name] == SetNcVar(dims, fields[i]))
            && (forall k :: k in vars ==>
                  k == LON_NAME || k == LAT_NAME || exists i :: 0 <= i < |fields| && fields[i].name == k)
  {
    ByNameHas(SetEntries(dims, fields));
    var c, b := CoordVars(dims, coords), ByName(SetEntries(dims, fields));
    assert c.Keys !! b.Keys;
    SumHas(c, b);
  }

  /** What writeFieldSet writes for a set of one grid: each point's longitude under
      "longitude", its latitude under "latitude", each field under its name, and nothing else. */
  lemma SetStands(count: nat, s: FieldSet)
    requires CanWriteAll(s) && s.fields != []
    ensures s.Valid() && RunOf(count, s).Some?
    ensures var g := RunOf(count, s).value.file;
            && HoldsCoordinate(g, "longitude", s.grids[0], (q: Point) => q.lon)
            && HoldsCoordinate(g, "latitude", s.grids[0], (q: Point) => q.lat)
            && (forall i :: 0 <= i < |s.fields| ==> HoldsSetField(g, s.fields[i]))
            && (forall k :: k in g.vars ==>
                  k == "longitude" || k == "latitude" || exists i :: 0 <= i < |s.fields| && s.fields[i].name == k)
            && NamesConvention(g.attrs, false)
  {
    OneRunWrites(count, s);
    var g, coords := RunOf(count, s).value.file, s.grids[0];
    SetFileHas(g.dims, s.fields, coords);
    CoordinatesStand(g, g.dims, coords);
    forall i | 0 <= i < |s.fields| ensures HoldsSetField(g, s.fields[i]) {
      SetFieldStands(g, g.dims, s.fields[i]);
    }
    AttrsOfRun(Convention(false, false));
  }

  // ---------------------------------------------------------------------------
  // What an opened file gives
  // ---------------------------------------------------------------------------

  /** The map of an opened file has, for each of its points, the closest point of the grid
      to the longitude and latitude found there. */
  lemma MapIsOfCoordinates(f: NcFile, tree: Tree, atlas: seq<Point>)
    requires f.Valid() && Readable(f) && Initialised(f, tree, atlas).Some?
    ensures "Mesh2d_face_x" in f.vars && "Mesh2d_face_y" in f.vars
    ensures var m, x, y := Initialised(f, tree, atlas).value.lfricMap, f.vars["Mesh2d_face_x"].data,
                           f.vars["Mesh2d_face_y"].data;
            && |m| == |atlas| == |x| <= |y|
            && forall k :: 0 <= k < |m| ==> m[k] == tree(atlas, Point(x[k], y[k]))
  {
    OpensIff(f, tree, atlas);
  }

  ghost predicate ConventionIs(attrs: map<string, NcAttr>, r: Option<bool>) {
    && ("variable_convention" !in attrs ==> r == Some(true))
    && ("variable_convention" in attrs && attrs["variable_convention"].NcText? ==>
        r == Some(attrs["variable_convention"].s != "JEDI"))
  }

  lemma ConventionOfAttrs(attrs: map<string, NcAttr>)
    ensures ConventionIs(attrs, IsLfricConvention(ReadAttrs(attrs)))
  {
  }

  /** A file without the attribute is an LFRic file, and so is one that names anything else
      than JEDI. */
  lemma ConventionIsRead(f: NcFile, tree: Tree, atlas: seq<Point>)
    requires f.Valid() && Readable(f) && Initialised(f, tree, atlas).Some?
    ensures ConventionIs(f.attrs, IsLfricConvention(Initialised(f, tree, atlas).value.meta.attrs))
  {
    OpensIff(f, tree, atlas);
    FileCopy.MetadataOfCopy(f);
    ConventionOfAttrs(f.attrs);
  }

  /** The names of the mesh and of both level variables. */
  ghost predicate IsOpenedName(k: string) {
    k == "full_levels" || k == "half_levels" || exists i: nat :: TermAt(k, "Mesh2d", i)
  }

  lemma OpenedNamesAre(f: NcFile, k: string)
    requires NEEDED_NAMES <= f.vars.Keys
    ensures k in OpenedNames(f) <==> k in f.vars && IsOpenedName(k)
  {
    ContainsIff(k, MESH_TERM);
    FacesAreMesh();
  }

  /** Opening reads the data of the mesh and of both level variables, and no others. */
  lemma OpenedDataAre(f: NcFile, tree: Tree, atlas: seq<Point>, k: string)
    requires f.Valid() && Readable(f) && Initialised(f, tree, atlas).Some?
    ensures var data := Initialised(f, tree, atlas).value.data;
            (k in data <==> k in f.vars && IsOpenedName(k)) && (k in data ==> data[k].data == f.vars[k].data)
  {
    OpensIff(f, tree, atlas);
    OpenedNamesAre(f, k);
    DataOfNames(f, k);
  }

  lemma DataOfNames(f: NcFile, k: string)
    requires f.Valid() && Readable(f)
    ensures k in OpenedData(f) <==> k in OpenedNames(f) && k in f.vars
    ensures k in OpenedData(f) ==> OpenedData(f)[k].data == f.vars[k].data
  {
    FileCopy.ReadsAllData(f);
    if k in f.vars { ReadableContainer(f, k); }
  }

  lemma FacesAreMesh()
    ensures TermAt(FACE_X, "Mesh2d", 0) && TermAt(FACE_Y, "Mesh2d", 0)
  {
  }

  /** The second closest to an offset; half a second counts as a whole. */
  ghost predicate IsNearest(second: int, offset: real) { second as real - 0.5 <= offset < second as real + 0.5 }

  lemma RoundedIsNearest(x: real)
    ensures IsNearest(Rounded(x), x)
  {
  }

  lemma NearestIsRounded(second: int, x: real)
    requires IsNearest(second, x)
    ensures second == Rounded(x)
  {
  }

  /** The time variable of a file, and what its origin says. */
  ghost predicate HasOrigin(f: NcFile, clock: Clock, origin: int) {
    && "time_instant" in f.vars && f.vars["time_instant"].typ == NcDouble
    && "time_origin" in f.vars["time_instant"].attrs && f.vars["time_instant"].attrs["time_origin"].NcText?
    && clock(f.vars["time_instant"].attrs["time_origin"].s) == Some(origin)
  }

  lemma OriginOfFile(f: NcFile)
    requires f.Valid() && Readable(f) && TIME_VAR_NAME in f.vars
    requires var attrs := VariableOf(f, TIME_VAR_NAME).attrs;
             TIME_ORIGIN_NAME in attrs && attrs[TIME_ORIGIN_NAME].StringAttr?
    ensures var attrs := f.vars[TIME_VAR_NAME].attrs;
            TIME_ORIGIN_NAME in attrs && attrs[TIME_ORIGIN_NAME].NcText? &&
            attrs[TIME_ORIGIN_NAME].s == VariableOf(f, TIME_VAR_NAME).attrs[TIME_ORIGIN_NAME].s
  {
    var attrs := f.vars[TIME_VAR_NAME].attrs;
    assert TIME_VAR_NAME in ReadableNames(f) && TIME_ORIGIN_NAME in ReadableAttrNames(attrs);
  }

  lemma OffsetsOfFile(f: NcFile)
    requires f.Valid() && Readable(f) && TIME_VAR_NAME in f.vars
    ensures var c := ContainersOf(f, VariablesOf(f))[TIME_VAR_NAME];
            && c.data == f.vars[TIME_VAR_NAME].data && |c.data| == VariableOf(f, TIME_VAR_NAME).TotalSize()
            && (c.typ == DoubleType ==> f.vars[TIME_VAR_NAME].typ == NcDouble)
  {
    ReadableContainer(f, TIME_VAR_NAME);
    VariableFits(f, TIME_VAR_NAME);
  }

  lemma TimesOfFile(f: NcFile, fv: FileView, clock: Clock)
    requires f.Valid() && Readable(f) && fv.meta.vars == VariablesOf(f) && TIME_VAR_NAME in f.vars
    requires TIME_VAR_NAME in fv.data && fv.data[TIME_VAR_NAME] == ContainersOf(f, VariablesOf(f))[TIME_VAR_NAME]
    requires TimesOf(fv, clock).Some?
    ensures exists origin :: HasOrigin(f, clock, origin) &&
              TimesOf(fv, clock).value == DateTimesOf(origin, f.vars["time_instant"].data)
  {
    var v, c := VariableOf(f, TIME_VAR_NAME), fv.data[TIME_VAR_NAME];
    OriginOfFile(f);
    OffsetsOfFile(f);
    assert c.data[..v.TotalSize()] == c.data;
    assert HasOrigin(f, clock, clock(v.attrs[TIME_ORIGIN_NAME].s).value);
  }

  lemma TimeIsLoaded(f: NcFile, fv: FileView)
    requires f.Valid() && Readable(f) && fv.meta.vars == VariablesOf(f)
    requires fv.data == OpenedData(f) && WithData(f, fv, {TIME_VAR_NAME}).Some?
    ensures TIME_VAR_NAME in f.vars
    ensures var r := WithData(f, fv, {TIME_VAR_NAME}).value;
            && r.meta == fv.meta && TIME_VAR_NAME in r.data && r.lfricMap == fv.lfricMap && r.dateTimes == fv.dateTimes
            && r.data[TIME_VAR_NAME] == ContainersOf(f, VariablesOf(f))[TIME_VAR_NAME]
            && forall k :: k != TIME_VAR_NAME ==> (k in r.data <==> k in fv.data)
  {
    WithDataIff(f, fv, {TIME_VAR_NAME});
    PickedOne(ContainersOf(f, VariablesOf(f)), OpenedNames(f), TIME_VAR_NAME);
  }

  /** The date-times are those of this origin and of the offsets in the file, each to the
      closest second. */
  ghost predicate TimesFollow(f: NcFile, origin: int, dateTimes: seq<int>) {
    && "time_instant" in f.vars && |dateTimes| == |f.vars["time_instant"].data|
    && forall k :: 0 <= k < |dateTimes| ==> IsNearest(dateTimes[k] - origin, f.vars["time_instant"].data[k])
  }

  lemma TimesOfFollow(f: NcFile, origin: int)
    requires "time_instant" in f.vars
    ensures TimesFollow(f, origin, DateTimesOf(origin, f.vars["time_instant"].data))
  {
    var offsets := f.vars["time_instant"].data;
    forall k | 0 <= k < |offsets| ensures IsNearest(DateTimesOf(origin, offsets)[k] - origin, offsets[k]) {
      RoundedIsNearest(offsets[k]);
    }
  }

  lemma OpenedTimes(f: NcFile, tree: Tree, atlas: seq<Point>, clock: Clock) returns (origin: int)
    requires f.Valid() && Readable(f) && InitialisedFor(f, tree, atlas, true, clock).Some?
    ensures Opens(f, atlas) && HasOrigin(f, clock, origin)
    ensures var fv := InitialisedFor(f, tree, atlas, true, clock).value;
            && fv.meta == Opened(f, tree, atlas).meta && fv.lfricMap == MapFrom(f, tree, atlas)
            && fv.dateTimes == DateTimesOf(origin, f.vars["time_instant"].data)
            && forall k :: k != TIME_VAR_NAME ==> (k in fv.data <==> k in OpenedData(f))
  {
    OpensIff(f, tree, atlas);
    var fv := Opened(f, tree, atlas);
    OpenedIsLoaded(f, tree, atlas);
    TimeIsLoaded(f, fv);
    var r := WithData(f, fv, {TIME_VAR_NAME}).value;
    TimesOfFile(f, r, clock);
    origin :| HasOrigin(f, clock, origin) &&
              TimesOf(r, clock).value == DateTimesOf(origin, f.vars["time_instant"].data);
  }

  /** An opened file with date-times has just those of its time variable: one for each of
      its offsets, to the closest second from its origin. */
  lemma DateTimesAreRead(f: NcFile, tree: Tree, atlas: seq<Point>, clock: Clock)
    requires f.Valid() && Readable(f) && InitialisedFor(f, tree, atlas, true, clock).Some?
    ensures exists origin :: HasOrigin(f, clock, origin) &&
              TimesFollow(f, origin, InitialisedFor(f, tree, atlas, true, clock).value.dateTimes)
  {
    var origin := OpenedTimes(f, tree, atlas, clock);
    TimesOfFollow(f, origin);
    assert HasOrigin(f, clock, origin);
  }

  /** A field that such files have no name for stays as it is. */
  lemma UnnamedIsPassedOver(f: NcFile, tree: Tree, atlas: seq<Point>, clock: Clock, dateTime: int, md: FieldMetadata,
                            field: FieldView)
    requires f.Valid() && Readable(f) && InitialisedFor(f, tree, atlas, true, clock).Some? && field.Valid()
    requires IsLfricConvention(InitialisedFor(f, tree, atlas, true, clock).value.meta.attrs) == Some(true)
    requires md.lfricReadName in ["TO BE DERIVED", "TO BE IMPLEMENTED", "none"]
    ensures FieldFromState(f, tree, atlas, clock, dateTime, md, field) == Some(field)
  {
  }

  lemma DescribedByFile(f: NcFile, k: string)
    requires f.Valid() && Readable(f) && k in f.vars
    ensures Describes(VariableOf(f, k), f) && Unique(VariableOf(f, k).dims)
    ensures DatumOf(f, VariableOf(f, k)) == Some(f.vars[k].data)
  {
    VariableFits(f, k);
    FileCopy.ReadsAllData(f);
    FileCopy.VariableRoundTrip(f, k);
  }

  /** The share of step k in the data of a variable whose first dimension is time. */
  ghost predicate IsStep(f: NcFile, name: string, k: nat, share: seq<real>) {
    && name in f.vars && f.vars[name].dims != [] && f.vars[name].dims[0] == "time_counter" && "time_counter" in f.dims
    && k < f.dims["time_counter"] && f.dims["time_counter"] * |share| == |f.vars[name].data|
    && 0 <= k * |share| <= (k + 1) * |share| <= |f.vars[name].data|
    && share == f.vars[name].data[k * |share|..(k + 1) * |share|]
  }

  /** The file has a variable of that name, of which opening reads nothing, over time. */
  ghost predicate HasTimeSteps(f: NcFile, name: string, k: nat) {
    && name !in MISSING_VARIABLE_NAMES && name in f.vars && name !in OpenedNames(f) && name != "time_instant"
    && f.vars[name].dims != [] && f.vars[name].dims[0] == "time_counter"
    && "time_counter" in f.dims && k < f.dims["time_counter"]
  }

  lemma ShareIsStep(f: NcFile, name: string, k: nat) returns (share: seq<real>)
    requires f.Valid() && Readable(f) && HasTimeSteps(f, name, k)
    ensures IsStep(f, name, k, share)
    ensures var v := VariableOf(f, name);
            var size := Hyperslab.Product(Hyperslab.Sizes(Hyperslab.WithoutTime(v.dims, TIME_DIM_NAME)));
            && |share| == size && 0 <= k * size <= (k + 1) * size <= |f.vars[name].data|
            && share == f.vars[name].data[k * size..(k + 1) * size]
  {
    var v := VariableOf(f, name);
    DescribedByFile(f, name);
    Hyperslab.TimeStepsShareOut(v.dims, TIME_DIM_NAME);
    var size := Hyperslab.Product(Hyperslab.Sizes(Hyperslab.WithoutTime(v.dims, TIME_DIM_NAME)));
    MulOrder(k + 1, v.dims[0].1, size);
    MulOrder(k, k + 1, size);
    share := f.vars[name].data[k * size..(k + 1) * size];
    StepUp(k, size);
  }

  /** The same of a store that was opened. */
  lemma StoreIsRead(f: NcFile, fv: FileView, origin: int, k: nat, dateTime: int, md: FieldMetadata, isLfric: bool,
                    field: FieldView)
    returns (share: seq<real>)
    requires f.Valid() && Readable(f) && field.Valid() && fv.meta.vars == VariablesOf(f) && "time_instant" in f.vars
    requires fv.dateTimes == DateTimesOf(origin, f.vars["time_instant"].data)
    requires SecondsApart(f.vars["time_instant"].data)
    requires k < |f.vars["time_instant"].data| && dateTime == fv.dateTimes[k]
    requires HasTimeSteps(f, ReadName(md, isLfric), k) && ReadName(md, isLfric) !in fv.data
    ensures var name := ReadName(md, isLfric);
            && IsStep(f, name, k, share)
            && FieldAtTime(f, fv, md, isLfric, field, dateTime) ==
               ReadInto(ContainerOf(f.vars[name], name).(data := share), fv.lfricMap, md.noFirstLevel, isLfric, field)
  {
    var name := ReadName(md, isLfric);
    DescribedByFile(f, name);
    share := ShareIsStep(f, name, k);
    StateFieldIsItsShare(f, fv, md, isLfric, field, origin, f.vars["time_instant"].data, k);
  }

  lemma ReadFromOpened(f: NcFile, tree: Tree, atlas: seq<Point>, clock: Clock, dateTime: int, md: FieldMetadata,
                       isLfric: bool, field: FieldView)
    requires f.Valid() && field.Valid() && InitialisedFor(f, tree, atlas, true, clock).Some?
    requires IsLfricConvention(InitialisedFor(f, tree, atlas, true, clock).value.meta.attrs) == Some(isLfric)
    ensures FieldFromState(f, tree, atlas, clock, dateTime, md, field) ==
            FieldAtTime(f, InitialisedFor(f, tree, atlas, true, clock).value, md, isLfric, field, dateTime)
  {
  }

  lemma OpenedForTimes(f: NcFile, tree: Tree, atlas: seq<Point>, clock: Clock, origin: int, name: string)
    requires f.Valid() && Readable(f) && InitialisedFor(f, tree, atlas, true, clock).Some?
    requires HasOrigin(f, clock, origin) && name !in OpenedNames(f) && name != "time_instant"
    ensures Opens(f, atlas)
    ensures var fv := InitialisedFor(f, tree, atlas, true, clock).value;
            && fv.meta.vars == VariablesOf(f) && fv.lfricMap == MapFrom(f, tree, atlas) && name !in fv.data
            && fv.dateTimes == DateTimesOf(origin, f.vars["time_instant"].data)
  {
    var same := OpenedTimes(f, tree, atlas, clock);
    OpenedIsLoaded(f, tree, atlas);
  }

  /** The date-time is that of step k: its offset from the origin, to the closest second. */
  ghost predicate IsTimeOfStep(f: NcFile, clock: Clock, origin: int, k: nat, dateTime: int) {
    && HasOrigin(f, clock, origin) && SecondsApart(f.vars["time_instant"].data)
    && k < |f.vars["time_instant"].data| && IsNearest(dateTime - origin, f.vars["time_instant"].data[k])
  }

  lemma TimeOfStep(f: NcFile, clock: Clock, origin: int, k: nat, dateTime: int)
    requires IsTimeOfStep(f, clock, origin, k, dateTime)
    ensures DateTimesOf(origin, f.vars["time_instant"].data)[k] == dateTime
  {
    NearestIsRounded(dateTime - origin, f.vars["time_instant"].data[k]);
  }

  lemma OpenedIsRead(f: NcFile, tree: Tree, atlas: seq<Point>, clock: Clock, origin: int, k: nat, dateTime: int,
                     md: FieldMetadata, isLfric: bool, field: FieldView)
    returns (share: seq<real>)
    requires f.Valid() && Readable(f) && field.Valid() && InitialisedFor(f, tree, atlas, true, clock).Some?
    requires IsTimeOfStep(f, clock, origin, k, dateTime) && HasTimeSteps(f, ReadName(md, isLfric), k)
    ensures Opens(f, atlas) && IsStep(f, ReadName(md, isLfric), k, share)
    ensures var name := ReadName(md, isLfric);
            FieldAtTime(f, InitialisedFor(f, tree, atlas, true, clock).value, md, isLfric, field, dateTime) ==
            ReadInto(ContainerOf(f.vars[name], name).(data := share), MapFrom(f, tree, atlas), md.noFirstLevel, isLfric,
                     field)
  {
    OpenedForTimes(f, tree, atlas, clock, origin, ReadName(md, isLfric));
    TimeOfStep(f, clock, origin, k, dateTime);
    share := StoreIsRead(f, InitialisedFor(f, tree, atlas, true, clock).value, origin, k, dateTime, md, isLfric, field);
  }

  /** The field that readState reads at the date-time of step k is filled from the k-th
      share of its variable, the one of the LFRic name for reading or of the JEDI name. */
  lemma StateIsRead(f: NcFile, tree: Tree, atlas: seq<Point>, clock: Clock, origin: int, k: nat, dateTime: int,
                    md: FieldMetadata, isLfric: bool, field: FieldView)
    returns (share: seq<real>)
    requires f.Valid() && Readable(f) && field.Valid() && InitialisedFor(f, tree, atlas, true, clock).Some?
    requires IsLfricConvention(InitialisedFor(f, tree, atlas, true, clock).value.meta.attrs) == Some(isLfric)
    requires IsTimeOfStep(f, clock, origin, k, dateTime)
    requires HasTimeSteps(f, if isLfric then md.lfricReadName else md.jediName, k)
    ensures var name := if isLfric then md.lfricReadName else md.jediName;
            && IsStep(f, name, k, share) && Opens(f, atlas)
            && FieldFromState(f, tree, atlas, clock, dateTime, md, field) ==
               ReadInto(ContainerOf(f.vars[name], name).(data := share), MapFrom(f, tree, atlas), md.noFirstLevel,
                        isLfric, field)
  {
    ReadFromOpened(f, tree, atlas, clock, dateTime, md, isLfric, field);
    share := OpenedIsRead(f, tree, atlas, clock, origin, k, dateTime, md, isLfric, field);
  }
}
