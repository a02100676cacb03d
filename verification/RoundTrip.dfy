/** What is written comes back: writeState or writeIncrements, then readIncrements on the
    file they made (src/monio/Monio.cc). */
module RoundTrip {
  import opened Options
  import opened AddIfAbsent
  import opened Store
  import opened NetCdf
  import opened Transfer
  import opened DataOrder
  import opened FieldWriter
  import opened WriteRun
  import opened FileInit
  import opened NearestMap
  import opened FileSetup
  import opened DateTimes
  import opened FieldReader
  import FileCopy
  import Hyperslab

  // ---------------------------------------------------------------------------
  // Which files can be opened
  // ---------------------------------------------------------------------------

  const NEEDED_NAMES := {VERT_FULL_NAME, VERT_HALF_NAME, FACE_X, FACE_Y}

  /** The file has levels and coordinates, as floats, for as many points as the grid. */
  predicate Opens(f: NcFile, atlas: seq<Point>) {
    && NEEDED_NAMES <= f.vars.Keys
    && f.vars[FACE_X].typ == f.vars[FACE_Y].typ == NcFloat
    && |f.vars[FACE_Y].data| >= |f.vars[FACE_X].data| == |atlas|
  }

  ghost function MapFrom(f: NcFile, tree: Tree, atlas: seq<Point>): (m: Map)
    requires Opens(f, atlas)
    ensures |m| == |atlas|
  {
    LfricAtlasMap(tree, atlas, PointsOf(f.vars[FACE_X].data, f.vars[FACE_Y].data)).value
  }

  function OpenedNames(f: NcFile): set<string> { StartNames(f.vars.Keys) + {FACE_X, FACE_Y} }

  function OpenedData(f: NcFile): Containers
    requires f.DimsKnown()
  {
    Restricted(ContainersOf(f, VariablesOf(f)), OpenedNames(f))
  }

  ghost function Opened(f: NcFile, tree: Tree, atlas: seq<Point>): FileView
    requires f.DimsKnown() && Opens(f, atlas)
  {
    FileView(MetaWith(EMPTY_META, f), OpenedData(f), MapFrom(f, tree, atlas), [])
  }

  lemma MapOfIs(data: Containers, x: Container, y: Container, tree: Tree, atlas: seq<Point>)
    requires FACE_X in data && FACE_Y in data && data[FACE_X] == x && data[FACE_Y] == y
    ensures MapOf(data, tree, atlas) ==
            if x.typ == y.typ == FloatType && |y.data| >= |x.data| == |atlas|
            then LfricAtlasMap(tree, atlas, PointsOf(x.data, y.data)) else None
  {
  }

  lemma ReadableContainer(f: NcFile, k: string)
    requires f.Valid() && Readable(f) && k in f.vars
    ensures k in DatumNames(f, VariablesOf(f))
    ensures var c := ContainersOf(f, VariablesOf(f))[k];
            c.data == f.vars[k].data && WriteType(c.typ) == f.vars[k].typ
  {
    FileCopy.ReadsAllData(f);
    assert k in ReadableNames(f);
  }

  lemma CoordinatesOf(f: NcFile, tree: Tree, atlas: seq<Point>)
    requires f.Valid() && Readable(f) && NEEDED_NAMES <= f.vars.Keys
    ensures MapOf(OpenedData(f), tree, atlas) == if Opens(f, atlas) then Some(MapFrom(f, tree, atlas)) else None
  {
    ReadableContainer(f, FACE_X);
    ReadableContainer(f, FACE_Y);
    var data := ContainersOf(f, VariablesOf(f));
    MapOfIs(OpenedData(f), data[FACE_X], data[FACE_Y], tree, atlas);
  }

  lemma WithDataIff(f: NcFile, fv: FileView, names: set<string>)
    requires f.Valid() && Readable(f) && fv.meta.vars == VariablesOf(f)
    ensures WithData(f, fv, names) ==
            if names <= f.vars.Keys
              then Some(fv.(data := Restricted(ContainersOf(f, VariablesOf(f)), names) + fv.data)) else None
  {
    FileCopy.ReadsAllData(f);
  }

  lemma MeshIs(f: NcFile, fv: FileView, tree: Tree, atlas: seq<Point>)
    requires f.Valid() && Readable(f) && fv.meta.vars == VariablesOf(f) && fv.data == map[] && fv.lfricMap == []
    ensures WithMesh(f, fv, tree, atlas) ==
            if !(OpenedNames(f) <= f.vars.Keys) then None
            else match MapOf(OpenedData(f), tree, atlas)
                 case None => None
                 case Some(m) => Some(fv.(data := OpenedData(f), lfricMap := m))
  {
    var names, from := StartNames(f.vars.Keys), ContainersOf(f, VariablesOf(f));
    WithDataIff(f, fv, names);
    AddToNothing(Restricted(from, names));
    if names <= f.vars.Keys {
      var r := fv.(data := Restricted(from, names));
      WithDataIff(f, r, {FACE_X, FACE_Y});
      RestrictedTwice(from, map[], names, {FACE_X, FACE_Y});
      AddToNothing(Restricted(from, OpenedNames(f)));
      assert WithMesh(f, fv, tree, atlas) == WithMap(f, r, tree, atlas);
    }
  }

  lemma NamesAreThere(f: NcFile)
    ensures OpenedNames(f) <= f.vars.Keys <==> NEEDED_NAMES <= f.vars.Keys
  {
  }

  lemma MeshOpens(f: NcFile, fv: FileView, tree: Tree, atlas: seq<Point>)
    requires f.Valid() && Readable(f) && fv.meta.vars == VariablesOf(f) && fv.data == map[] && fv.lfricMap == []
    ensures WithMesh(f, fv, tree, atlas) ==
            if Opens(f, atlas) then Some(fv.(data := OpenedData(f), lfricMap := MapFrom(f, tree, atlas))) else None
  {
    MeshIs(f, fv, tree, atlas);
    assert OpenedNames(f) <= f.vars.Keys <==> NEEDED_NAMES <= f.vars.Keys by { NamesAreThere(f); }
    if NEEDED_NAMES <= f.vars.Keys { CoordinatesOf(f, tree, atlas); }
  }

  /** A readable file opens exactly when it has what is needed, and then the store holds
      just these data. */
  lemma OpensIff(f: NcFile, tree: Tree, atlas: seq<Point>)
    requires f.Valid() && Readable(f)
    ensures Initialised(f, tree, atlas) == if Opens(f, atlas) then Some(Opened(f, tree, atlas)) else None
  {
    FileCopy.MetadataOfCopy(f);
    MeshOpens(f, EMPTY_FILE_VIEW.(meta := MetaWith(EMPTY_META, f)), tree, atlas);
  }

  // ---------------------------------------------------------------------------
  // The store that writing starts from
  // ---------------------------------------------------------------------------

  lemma OpenedIsLoaded(f: NcFile, tree: Tree, atlas: seq<Point>)
    requires f.Valid() && Readable(f) && Opens(f, atlas)
    ensures Loaded(Opened(f, tree, atlas)) && UniqueDims(VariablesOf(f))
    ensures Opened(f, tree, atlas).meta.vars == VariablesOf(f)
  {
    FileCopy.MetadataOfCopy(f);
    forall k | k in f.vars
      ensures Unique(VariablesOf(f)[k].dims)
      ensures Fits(f.dims, VariablesOf(f)[k], ContainersOf(f, VariablesOf(f))[k], k)
    {
      VariableFits(f, k);
    }
  }

  lemma VariableFits(f: NcFile, k: string)
    requires f.Valid() && Readable(f) && k in f.vars
    ensures Unique(VariableOf(f, k).dims) && Fits(f.dims, VariableOf(f, k), ContainersOf(f, VariablesOf(f))[k], k)
  {
    assert k in ReadableNames(f);
    FileCopy.ReadsAllData(f);
    FileCopy.VariableRoundTrip(f, k);
    ShapeUnique(f, f.vars[k].dims);
  }

  /** No size is given to the JEDI levels by another dimension of that name. */
  ghost predicate LevelsFree(dims: map<string, nat>) {
    && (FULL_NO_SURF_NAME in dims ==> dims[FULL_NO_SURF_NAME] == FULL_NO_SURF_SIZE)
    && (HALF_WITH_TOP_NAME in dims ==> dims[HALF_WITH_TOP_NAME] == HALF_WITH_TOP_SIZE)
  }

  /** Writing can start from this file: what is kept of it lists no time or tiles. */
  ghost predicate Starts(fv: FileView, isLfric: bool) { Timeless(fv) && (isLfric || LevelsFree(fv.meta.dims)) }

  lemma CleanedKeeps(fv: FileView, k: string)
    requires Loaded(fv) && Timeless(fv) && k in KeptData(fv.data)
    ensures k in Cleaned(fv).data && Cleaned(fv).data[k] == fv.data[k]
    ensures k in Cleaned(fv).meta.vars && Cleaned(fv).meta.vars[k] == fv.meta.vars[k]
  {
    CleanedIsReady(fv);
  }

  ghost predicate Good(fv: FileView) { Ready(fv) && UniqueDims(fv.meta.vars) && fv.meta.attrs == map[] }

  /** Everything of one store is in the other. */
  ghost predicate Extends(a: FileView, b: FileView) {
    Within(a.meta.vars, b.meta.vars) && Within(a.data, b.data) && a.lfricMap == b.lfricMap
  }

  lemma LevelsStayGood(fv: FileView, name: string, size: nat, first: real)
    requires Good(fv) && (name in fv.meta.dims ==> fv.meta.dims[name] == size)
    ensures Good(WithLevels(fv, name, size, first)) && Extends(fv, WithLevels(fv, name, size, first))
    ensures WithLevels(fv, name, size, first).meta.dims == IfAbsent(fv.meta.dims, name, size)
  {
    WithLevelsIsReady(fv, name, size, first);
  }

  lemma CleanedIsGood(fv: FileView)
    requires Loaded(fv) && UniqueDims(fv.meta.vars) && Timeless(fv)
    ensures Good(Cleaned(fv)) && Cleaned(fv).lfricMap == fv.lfricMap
  {
    CleanedIsReady(fv);
  }

  lemma JediIsGood(fv: FileView)
    requires Good(fv) && LevelsFree(fv.meta.dims)
    ensures Good(WithJediData(fv)) && Extends(fv, WithJediData(fv))
  {
    assert FULL_NO_SURF_NAME[0] != HALF_WITH_TOP_NAME[0];
    LevelsStayGood(fv, FULL_NO_SURF_NAME, FULL_NO_SURF_SIZE, 1.0);
    LevelsStayGood(WithLevels(fv, FULL_NO_SURF_NAME, FULL_NO_SURF_SIZE, 1.0), HALF_WITH_TOP_NAME, HALF_WITH_TOP_SIZE,
                   0.5);
  }

  /** The prepared store is ready, and has each variable and container that was kept. */
  lemma PreparedIsGood(fv: FileView, isLfric: bool)
    requires Loaded(fv) && UniqueDims(fv.meta.vars) && Starts(fv, isLfric)
    ensures Good(Prepared(fv, isLfric)) && Extends(Cleaned(fv), Prepared(fv, isLfric))
  {
    CleanedIsGood(fv);
    if !isLfric { JediIsGood(Cleaned(fv)); }
  }

  // ---------------------------------------------------------------------------
  // The file that is written can be opened in its turn
  // ---------------------------------------------------------------------------

  ghost predicate WellFormed(dims: map<string, nat>, v: NcVar) {
    Defines(dims, v.dims) && ReadableVar(v) && |v.data| == Hyperslab.TotalSize(Shape(dims, v.dims))
  }

  lemma AllWellFormed(g: NcFile)
    requires ReadableAttrs(g.attrs) && forall k :: k in g.vars ==> WellFormed(g.dims, g.vars[k])
    ensures g.Valid() && Readable(g)
  {
    forall k | k in g.vars ensures Defines(g.dims, g.vars[k].dims) && k in ReadableNames(g) {
      assert WellFormed(g.dims, g.vars[k]);
    }
  }

  lemma WrittenAttrsAreReadable(attrs: map<string, Attribute>)
    ensures ReadableAttrs(WriteAttrs(attrs)) && ReadAttrs(WriteAttrs(attrs)) == attrs
  {
  }

  lemma AsWrittenIsWellFormed(dims: map<string, nat>, v: VariableView, c: Store.Container, k: string)
    requires Fits(dims, v, c, k) && Unique(v.dims)
    ensures WellFormed(dims, AsWritten(v, c))
  {
    FittingIsWritten(dims, v, c, k);
    WrittenAttrsAreReadable(v.attrs);
  }

  lemma FieldIsWellFormed(dims: map<string, nat>, m: Map, fields: map<string, FieldView>, md: FieldMetadata,
                          conv: Convention)
    requires ValidFields(fields) && InRange(m) && Writes(dims, m, fields, md, conv)
    ensures WellFormed(dims, FieldNcVar(dims, m, fields, md, conv))
  {
    var w, name, vert := FieldToWrite(fields, md, conv), WriteName(md, conv), VertConfigName(md, conv);
    FieldFits(dims, m, w, md, name, vert);
    ListedDimsExist(dims, [w.levels, w.points], vert);
    AsWrittenIsWellFormed(dims, FieldVariable(dims, w, md, name, vert).value, FieldContainer(m, w, name).value, name);
  }

  lemma RunFileIsReadable(store: FileView, fields: map<string, FieldView>, mds: seq<FieldMetadata>, conv: Convention)
    requires CanRun(store, fields, mds, conv) && mds != [] && UniqueDims(store.meta.vars)
    ensures var g := RunFile(store, fields, mds, conv); g.Valid() && Readable(g)
  {
    var g := RunFile(store, fields, mds, conv);
    RunFileHas(store, fields, mds, conv);
    WrittenAttrsAreReadable(WithGlobalAttributes(map[], conv.isLfric));
    forall k | k in g.vars ensures WellFormed(g.dims, g.vars[k]) {
      if k in store.meta.vars {
        AsWrittenIsWellFormed(g.dims, store.meta.vars[k], store.data[k], k);
      } else {
        var i :| 0 <= i < |mds| && WriteName(mds[i], conv) == k;
        FieldIsWellFormed(store.meta.dims, store.lfricMap, fields, mds[i], conv);
      }
    }
    AllWellFormed(g);
  }

  lemma RunFileNamesItsConvention(conv: Convention)
    ensures IsLfricConvention(ReadAttrs(RunAttrs(conv))) == Some(conv.isLfric)
  {
    WrittenAttrsAreReadable(WithGlobalAttributes(map[], conv.isLfric));
    assert CONVENTION_NAME != PRODUCED_BY_NAME by { assert CONVENTION_NAME[0] != PRODUCED_BY_NAME[0]; }
    assert ConventionValue(true)[0] != ConventionValue(false)[0];
  }

  ghost function StoreFor(f: NcFile, tree: Tree, atlas: seq<Point>, isLfric: bool): FileView
    requires f.DimsKnown() && Opens(f, atlas)
  {
    Prepared(Opened(f, tree, atlas), isLfric)
  }

  /** A file was opened, its points are the grid's in some order, and fields can be
      written with what was kept of it. */
  ghost predicate CanWrite(f: NcFile, tree: Tree, atlas: seq<Point>, fields: map<string, FieldView>,
                           mds: seq<FieldMetadata>, conv: Convention)
  {
    && f.Valid() && Readable(f) && Opens(f, atlas) && Permutation(MapFrom(f, tree, atlas))
    && Starts(Opened(f, tree, atlas), conv.isLfric)
    && ValidFields(fields) && mds != [] && FieldsWritable(StoreFor(f, tree, atlas, conv.isLfric), fields, mds, conv)
  }

  lemma CanWriteRuns(f: NcFile, tree: Tree, atlas: seq<Point>, fields: map<string, FieldView>, mds: seq<FieldMetadata>,
                     conv: Convention)
    requires CanWrite(f, tree, atlas, fields, mds, conv)
    ensures var store := StoreFor(f, tree, atlas, conv.isLfric);
            CanRun(store, fields, mds, conv) && Good(store) && store.lfricMap == MapFrom(f, tree, atlas)
  {
    OpenedIsLoaded(f, tree, atlas);
    PreparedIsGood(Opened(f, tree, atlas), conv.isLfric);
  }

  lemma KeptInPrepared(fv: FileView, isLfric: bool, k: string)
    requires Loaded(fv) && UniqueDims(fv.meta.vars) && Starts(fv, isLfric) && k in KeptData(fv.data)
    ensures var p := Prepared(fv, isLfric);
            k in p.meta.vars && k in p.data && p.meta.vars[k] == fv.meta.vars[k] && p.data[k] == fv.data[k]
  {
    CleanedKeeps(fv, k);
    PreparedIsGood(fv, isLfric);
  }

  lemma OpenedContainer(f: NcFile, k: string)
    requires f.Valid() && Readable(f) && k in OpenedData(f)
    ensures k in f.vars && OpenedData(f)[k].data == f.vars[k].data && WriteType(VariablesOf(f)[k].typ) == f.vars[k].typ
  {
    ReadableContainer(f, k);
  }

  lemma KeptOf(data: Containers, k: string)
    requires k in data && k != TIME_VAR_NAME && k != TILE_VAR_NAME
    ensures k in KeptData(data) && KeptData(data)[k] == data[k]
  {
  }

  lemma KeptInOpened(f: NcFile, tree: Tree, atlas: seq<Point>, k: string)
    requires f.Valid() && Readable(f) && Opens(f, atlas)
    requires k in OpenedData(f) && k != TIME_VAR_NAME && k != TILE_VAR_NAME
    ensures var fv := Opened(f, tree, atlas);
            && k in f.vars && k in KeptData(fv.data) && k in fv.meta.vars
            && fv.data[k].data == f.vars[k].data && WriteType(fv.meta.vars[k].typ) == f.vars[k].typ
  {
    OpenedIsLoaded(f, tree, atlas);
    OpenedContainer(f, k);
    KeptOf(OpenedData(f), k);
  }

  lemma KeptInStore(f: NcFile, tree: Tree, atlas: seq<Point>, isLfric: bool, k: string)
    requires f.Valid() && Readable(f) && Opens(f, atlas) && Starts(Opened(f, tree, atlas), isLfric)
    requires k in OpenedData(f) && k != TIME_VAR_NAME && k != TILE_VAR_NAME
    ensures var store := StoreFor(f, tree, atlas, isLfric);
            && k in f.vars && k in store.meta.vars && k in store.data
            && store.data[k].data == f.vars[k].data && WriteType(store.meta.vars[k].typ) == f.vars[k].typ
  {
    OpenedIsLoaded(f, tree, atlas);
    KeptInOpened(f, tree, atlas, k);
    KeptInPrepared(Opened(f, tree, atlas), isLfric, k);
  }

  /** The file written from a store. */
  ghost function FileFor(f: NcFile, tree: Tree, atlas: seq<Point>, fields: map<string, FieldView>,
                         mds: seq<FieldMetadata>, conv: Convention): NcFile
    requires CanWrite(f, tree, atlas, fields, mds, conv)
  {
    CanWriteRuns(f, tree, atlas, fields, mds, conv);
    RunFile(StoreFor(f, tree, atlas, conv.isLfric), fields, mds, conv)
  }

  lemma KeptInFile(f: NcFile, tree: Tree, atlas: seq<Point>, fields: map<string, FieldView>, mds: seq<FieldMetadata>,
                   conv: Convention, k: string)
    requires CanWrite(f, tree, atlas, fields, mds, conv)
    requires k in OpenedData(f) && k != TIME_VAR_NAME && k != TILE_VAR_NAME
    ensures var g := FileFor(f, tree, atlas, fields, mds, conv);
            k in f.vars && k in g.vars && g.vars[k].data == f.vars[k].data && g.vars[k].typ == f.vars[k].typ
  {
    CanWriteRuns(f, tree, atlas, fields, mds, conv);
    RunFileHas(StoreFor(f, tree, atlas, conv.isLfric), fields, mds, conv);
    KeptInStore(f, tree, atlas, conv.isLfric, k);
  }

  lemma NeededIsNotTime(k: string)
    requires k == VERT_FULL_NAME || k == VERT_HALF_NAME || k == FACE_X || k == FACE_Y
    ensures k != TIME_VAR_NAME && k != TILE_VAR_NAME
  {
    assert TIME_VAR_NAME[0] == 't' && TILE_VAR_NAME[0] == 't';
    assert VERT_FULL_NAME[0] == 'f' && VERT_HALF_NAME[0] == 'h' && FACE_X[0] == 'M' && FACE_Y[0] == 'M';
  }

  lemma NeededIsOpened(f: NcFile, k: string)
    requires f.DimsKnown() && NEEDED_NAMES <= f.vars.Keys
    requires k == VERT_FULL_NAME || k == VERT_HALF_NAME || k == FACE_X || k == FACE_Y
    ensures k in OpenedData(f)
  {
    assert k in OpenedNames(f);
  }

  lemma NeededInFile(f: NcFile, tree: Tree, atlas: seq<Point>, fields: map<string, FieldView>, mds: seq<FieldMetadata>,
                     conv: Convention, k: string)
    requires CanWrite(f, tree, atlas, fields, mds, conv)
    requires k == VERT_FULL_NAME || k == VERT_HALF_NAME || k == FACE_X || k == FACE_Y
    ensures var g := FileFor(f, tree, atlas, fields, mds, conv);
            k in f.vars && k in g.vars && g.vars[k].data == f.vars[k].data && g.vars[k].typ == f.vars[k].typ
  {
    NeededIsNotTime(k);
    NeededIsOpened(f, k);
    KeptInFile(f, tree, atlas, fields, mds, conv, k);
  }

  lemma SameCoordinatesSameMap(f: NcFile, g: NcFile, tree: Tree, atlas: seq<Point>)
    requires Opens(f, atlas) && VERT_FULL_NAME in g.vars && VERT_HALF_NAME in g.vars && FACE_X in g.vars
    requires FACE_Y in g.vars
    requires g.vars[FACE_X].data == f.vars[FACE_X].data && g.vars[FACE_X].typ == f.vars[FACE_X].typ
    requires g.vars[FACE_Y].data == f.vars[FACE_Y].data && g.vars[FACE_Y].typ == f.vars[FACE_Y].typ
    ensures Opens(g, atlas) && MapFrom(g, tree, atlas) == MapFrom(f, tree, atlas)
  {
  }

  lemma WrittenFileHasMap(f: NcFile, tree: Tree, atlas: seq<Point>, fields: map<string, FieldView>,
                          mds: seq<FieldMetadata>, conv: Convention)
    requires CanWrite(f, tree, atlas, fields, mds, conv)
    ensures var g := FileFor(f, tree, atlas, fields, mds, conv);
            Opens(g, atlas) && MapFrom(g, tree, atlas) == MapFrom(f, tree, atlas)
  {
    NeededInFile(f, tree, atlas, fields, mds, conv, VERT_FULL_NAME);
    NeededInFile(f, tree, atlas, fields, mds, conv, VERT_HALF_NAME);
    NeededInFile(f, tree, atlas, fields, mds, conv, FACE_X);
    NeededInFile(f, tree, atlas, fields, mds, conv, FACE_Y);
    SameCoordinatesSameMap(f, FileFor(f, tree, atlas, fields, mds, conv), tree, atlas);
  }

  lemma WrittenFileIsReadable(f: NcFile, tree: Tree, atlas: seq<Point>, fields: map<string, FieldView>,
                              mds: seq<FieldMetadata>, conv: Convention)
    requires CanWrite(f, tree, atlas, fields, mds, conv)
    ensures var g := FileFor(f, tree, atlas, fields, mds, conv);
            g.Valid() && Readable(g) && g.attrs == RunAttrs(conv)
  {
    CanWriteRuns(f, tree, atlas, fields, mds, conv);
    RunFileIsReadable(StoreFor(f, tree, atlas, conv.isLfric), fields, mds, conv);
  }

  /** The written file can be read, is of the convention it was written in, and gives
      the same map. */
  lemma WrittenFileOpens(f: NcFile, tree: Tree, atlas: seq<Point>, fields: map<string, FieldView>,
                         mds: seq<FieldMetadata>, conv: Convention)
    requires CanWrite(f, tree, atlas, fields, mds, conv)
    ensures var g := FileFor(f, tree, atlas, fields, mds, conv);
            && g.Valid() && Readable(g) && Opens(g, atlas) && MapFrom(g, tree, atlas) == MapFrom(f, tree, atlas)
            && Initialised(g, tree, atlas) == Some(Opened(g, tree, atlas))
            && IsLfricConvention(Opened(g, tree, atlas).meta.attrs) == Some(conv.isLfric)
  {
    var g := FileFor(f, tree, atlas, fields, mds, conv);
    WrittenFileIsReadable(f, tree, atlas, fields, mds, conv);
    WrittenFileHasMap(f, tree, atlas, fields, mds, conv);
    OpensIff(g, tree, atlas);
    FileCopy.MetadataOfCopy(g);
    RunFileNamesItsConvention(conv);
  }

  // ---------------------------------------------------------------------------
  // Fields come back
  // ---------------------------------------------------------------------------

  /** The target of reading has the type and the size of the field that was written. */
  ghost predicate SameShape(target: FieldView, field: FieldView) {
    target.Valid() && field.Valid() && target.typ == field.typ && target.points == field.points &&
      target.levels == field.levels
  }

  /** The target after the field came back: it has the field's values, unless it is one of
      those misconfigured, which are left as they were. */
  function ComeBack(target: FieldView, field: FieldView, noFirstLevel: bool): FieldView {
    if Misconfigured(noFirstLevel, field.levels) then target else target.(cells := field.cells)
  }

  lemma AllThere(m: Map, levels: nat, skip: nat, size: nat)
    requires Permutation(m) && size >= |m| * (levels + skip)
    ensures AllWithin(m, levels, skip, size)
  {
    if |m| > 0 && levels > 0 { EnoughDataIff(m, levels, skip, size); }
  }

  /** One field, written and read in the same convention, whatever the target held. */
  lemma FieldComesBack(field: FieldView, target: FieldView, m: Map, writeName: string, noFirstLevel: bool,
                       isLfric: bool, c: Store.Container)
    requires Permutation(m) && SameShape(target, field) && ToWrite(field, writeName, noFirstLevel, isLfric).Some?
    requires var w := ToWrite(field, writeName, noFirstLevel, isLfric).value;
             w.points == |m| && c.typ == w.typ && c.data == DataOrder.Container(m, w.cells, w.levels)
    ensures ReadInto(c, m, noFirstLevel, isLfric, target) == Some(ComeBack(target, field, noFirstLevel))
  {
    var n := |m|;
    if Misconfigured(noFirstLevel, field.levels) {
      MulOrder(HALF_LEVELS, FULL_LEVELS, n);
      AllThere(m, HALF_LEVELS, 0, |c.data|);
    } else {
      var skip := Skip(noFirstLevel, isLfric, field.levels);
      AllThere(m, field.levels, skip, |c.data|);
      var back := Decoded(c.data, m, field.levels, skip, target.cells);
      if skip == 1 {
        ReadAfterWriteWithSurface(m, field.cells, field.levels, back, target.cells);
      } else {
        ReadAfterWrite(m, field.cells, field.levels, back, target.cells);
      }
    }
  }

  lemma PickedOne<V>(from: map<string, V>, names: set<string>, k: string)
    requires k in from
    ensures k in Restricted(from, {k}) + Restricted(from, names)
    ensures (Restricted(from, {k}) + Restricted(from, names))[k] == from[k]
  {
  }

  /** Reading one more variable of an opened file gives its data. */
  lemma DatumOfOpened(g: NcFile, tree: Tree, atlas: seq<Point>, k: string)
    requires g.Valid() && Readable(g) && Opens(g, atlas) && k in g.vars
    ensures var w := WithData(g, Opened(g, tree, atlas), {k});
            && w.Some? && w.value.lfricMap == MapFrom(g, tree, atlas) && k in w.value.data
            && w.value.data[k].data == g.vars[k].data && WriteType(w.value.data[k].typ) == g.vars[k].typ
  {
    var fv, from := Opened(g, tree, atlas), ContainersOf(g, VariablesOf(g));
    OpenedIsLoaded(g, tree, atlas);
    WithDataIff(g, fv, {k});
    PickedOne(from, OpenedNames(g), k);
    ReadableContainer(g, k);
  }

  /** Fields are read under the names they were written under. */
  ghost predicate SameNames(mds: seq<FieldMetadata>, conv: Convention) {
    forall i :: 0 <= i < |mds| ==> ReadName(mds[i], conv.isLfric) == WriteName(mds[i], conv)
  }

  /** State files and JEDI names are read under the names they are written under; only
      increments in LFRic names have names of their own. */
  lemma NamesAgreeUnlessIncrement(mds: seq<FieldMetadata>, conv: Convention)
    ensures !conv.isLfric || conv.isState ==> SameNames(mds, conv)
  {
  }

  lemma FieldInFile(f: NcFile, tree: Tree, atlas: seq<Point>, fields: map<string, FieldView>, mds: seq<FieldMetadata>,
                    conv: Convention, i: nat)
    requires CanWrite(f, tree, atlas, fields, mds, conv) && i < |mds|
    ensures mds[i].jediName in fields
    ensures ToWrite(fields[mds[i].jediName], WriteName(mds[i], conv), mds[i].noFirstLevel, conv.isLfric).Some?
    ensures var g, w, m :=
              FileFor(f, tree, atlas, fields, mds, conv), FieldToWrite(fields, mds[i], conv), MapFrom(f, tree, atlas);
            && WriteName(mds[i], conv) in g.vars && w.points == |m|
            && g.vars[WriteName(mds[i], conv)].typ == WriteType(w.typ)
            && g.vars[WriteName(mds[i], conv)].data == DataOrder.Container(m, w.cells, w.levels)
  {
    CanWriteRuns(f, tree, atlas, fields, mds, conv);
    RunFileHas(StoreFor(f, tree, atlas, conv.isLfric), fields, mds, conv);
  }

  /** The container a variable of a file is read into. */
  function ContainerOf(v: NcVar, k: string): Store.Container {
    Store.Container(k, ReadType(v.typ).GetOr(IntType), v.data)
  }

  /** Only type and data of a container count. */
  lemma ReadIntoSame(a: Store.Container, b: Store.Container, m: Map, noFirstLevel: bool, isLfric: bool,
                     target: FieldView)
    requires target.Valid() && a.typ == b.typ && a.data == b.data
    ensures ReadInto(a, m, noFirstLevel, isLfric, target) == ReadInto(b, m, noFirstLevel, isLfric, target)
  {
  }

  lemma FieldOfIs(g: NcFile, fv: FileView, md: FieldMetadata, isLfric: bool, target: FieldView)
    requires target.Valid() && WithData(g, fv, {ReadName(md, isLfric)}).Some?
    ensures var w := WithData(g, fv, {ReadName(md, isLfric)}).value;
            ReadName(md, isLfric) in w.data ==>
              FieldOf(g, fv, md, isLfric, target) ==
                ReadInto(w.data[ReadName(md, isLfric)], w.lfricMap, md.noFirstLevel, isLfric, target)
  {
  }

  lemma TypesAgree(t: DataType, n: NcType)
    requires WriteType(t) == n
    ensures ReadType(n).GetOr(IntType) == t
  {
  }

  lemma PresentIsRead(g: NcFile, tree: Tree, atlas: seq<Point>, md: FieldMetadata, isLfric: bool, target: FieldView)
    requires g.Valid() && Readable(g) && Opens(g, atlas) && target.Valid() && ReadName(md, isLfric) in g.vars
    ensures var k := ReadName(md, isLfric);
            FieldOf(g, Opened(g, tree, atlas), md, isLfric, target) ==
            ReadInto(ContainerOf(g.vars[k], k), MapFrom(g, tree, atlas), md.noFirstLevel, isLfric, target)
  {
    var k, fv := ReadName(md, isLfric), Opened(g, tree, atlas);
    DatumOfOpened(g, tree, atlas, k);
    var w := WithData(g, fv, {k}).value;
    FieldOfIs(g, fv, md, isLfric, target);
    TypesAgree(w.data[k].typ, g.vars[k].typ);
    ReadIntoSame(w.data[k], ContainerOf(g.vars[k], k), w.lfricMap, md.noFirstLevel, isLfric, target);
  }

  lemma FieldOfOpened(g: NcFile, tree: Tree, atlas: seq<Point>, md: FieldMetadata, writeName: string, isLfric: bool,
                      field: FieldView, target: FieldView)
    requires g.Valid() && Readable(g) && Opens(g, atlas) && Permutation(MapFrom(g, tree, atlas))
    requires SameShape(target, field) && ReadName(md, isLfric) == writeName && writeName in g.vars
    requires ToWrite(field, writeName, md.noFirstLevel, isLfric).Some?
    requires var w, m := ToWrite(field, writeName, md.noFirstLevel, isLfric).value, MapFrom(g, tree, atlas);
             && w.points == |m| && g.vars[writeName].typ == WriteType(w.typ)
             && g.vars[writeName].data == DataOrder.Container(m, w.cells, w.levels)
    ensures FieldOf(g, Opened(g, tree, atlas), md, isLfric, target) == Some(ComeBack(target, field, md.noFirstLevel))
  {
    var w, v := ToWrite(field, writeName, md.noFirstLevel, isLfric).value, g.vars[writeName];
    TypesAgree(w.typ, v.typ);
    PresentIsRead(g, tree, atlas, md, isLfric, target);
    FieldComesBack(field, target, MapFrom(g, tree, atlas), writeName, md.noFirstLevel, isLfric,
                   ContainerOf(v, writeName));
  }

  lemma FieldReadBack(f: NcFile, tree: Tree, atlas: seq<Point>, fields: map<string, FieldView>, mds: seq<FieldMetadata>,
                      conv: Convention, i: nat, target: FieldView)
    requires CanWrite(f, tree, atlas, fields, mds, conv) && i < |mds|
    requires ReadName(mds[i], conv.isLfric) == WriteName(mds[i], conv)
    requires mds[i].jediName in fields && SameShape(target, fields[mds[i].jediName])
    ensures FileFor(f, tree, atlas, fields, mds, conv).DimsKnown()
    ensures FieldFrom(FileFor(f, tree, atlas, fields, mds, conv), tree, atlas, mds[i], target) ==
            Some(ComeBack(target, fields[mds[i].jediName], mds[i].noFirstLevel))
  {
    var g, md := FileFor(f, tree, atlas, fields, mds, conv), mds[i];
    WrittenFileOpens(f, tree, atlas, fields, mds, conv);
    FieldInFile(f, tree, atlas, fields, mds, conv, i);
    FieldOfOpened(g, tree, atlas, md, WriteName(md, conv), conv.isLfric, fields[md.jediName], target);
  }

  /** All targets are there, in the shape of the fields written. */
  ghost predicate SameShapes(targets: map<string, FieldView>, fields: map<string, FieldView>, mds: seq<FieldMetadata>) {
    forall i :: 0 <= i < |mds| ==>
      mds[i].jediName in targets && mds[i].jediName in fields &&
        SameShape(targets[mds[i].jediName], fields[mds[i].jediName])
  }

  /** The list names this field, and not only in a misconfigured way. */
  ghost predicate Restores(mds: seq<FieldMetadata>, k: string, levels: nat) {
    exists i :: 0 <= i < |mds| && mds[i].jediName == k && !Misconfigured(mds[i].noFirstLevel, levels)
  }

  /** The targets after the fields of a list came back: those restored have the values
      of the fields, all others are as they were. */
  ghost function AllBack(targets: map<string, FieldView>, fields: map<string, FieldView>, mds: seq<FieldMetadata>)
    : (r: map<string, FieldView>)
    ensures r.Keys == targets.Keys
  {
    map k | k in targets ::
      if k in fields && Restores(mds, k, fields[k].levels) then targets[k].(cells := fields[k].cells) else targets[k]
  }

  lemma RestoresNext(mds: seq<FieldMetadata>, n: nat, k: string, levels: nat)
    requires n < |mds|
    ensures Restores(mds[..n + 1], k, levels) <==>
            Restores(mds[..n], k, levels) || (mds[n].jediName == k && !Misconfigured(mds[n].noFirstLevel, levels))
  {
    if Restores(mds[..n], k, levels) {
      var i :| 0 <= i < n && mds[..n][i].jediName == k && !Misconfigured(mds[..n][i].noFirstLevel, levels);
      assert mds[..n + 1][i] == mds[..n][i];
    }
    if mds[n].jediName == k && !Misconfigured(mds[n].noFirstLevel, levels) {
      assert mds[..n + 1][n] == mds[n];
    }
    if Restores(mds[..n + 1], k, levels) {
      var i :| 0 <= i < n + 1 && mds[..n + 1][i].jediName == k && !Misconfigured(mds[..n + 1][i].noFirstLevel, levels);
      if i < n { assert mds[..n][i] == mds[..n + 1][i]; }
    }
  }

  lemma AllBackNext(targets: map<string, FieldView>, fields: map<string, FieldView>, mds: seq<FieldMetadata>, n: nat)
    requires n < |mds| && mds[n].jediName in targets && mds[n].jediName in fields
    ensures var k, before := mds[n].jediName, AllBack(targets, fields, mds[..n]);
            AllBack(targets, fields, mds[..n + 1]) == before[k := ComeBack(before[k], fields[k], mds[n].noFirstLevel)]
  {
    forall k | k in targets && k in fields
      ensures Restores(mds[..n + 1], k, fields[k].levels) <==>
              Restores(mds[..n], k, fields[k].levels) ||
                (mds[n].jediName == k && !Misconfigured(mds[n].noFirstLevel, fields[k].levels))
    {
      RestoresNext(mds, n, k, fields[k].levels);
    }
  }

  lemma AllBackIsValid(targets: map<string, FieldView>, fields: map<string, FieldView>, mds: seq<FieldMetadata>, n: nat)
    requires ValidFields(targets) && SameShapes(targets, fields, mds) && n <= |mds|
    ensures ValidFields(AllBack(targets, fields, mds[..n]))
    ensures n < |mds| ==> SameShape(AllBack(targets, fields, mds[..n])[mds[n].jediName], fields[mds[n].jediName])
  {
    forall k | k in targets ensures AllBack(targets, fields, mds[..n])[k].Valid() {
      if k in fields && Restores(mds[..n], k, fields[k].levels) {
        var i :| 0 <= i < n && mds[..n][i].jediName == k && !Misconfigured(mds[..n][i].noFirstLevel, fields[k].levels);
        assert SameShape(targets[mds[i].jediName], fields[mds[i].jediName]);
      }
    }
  }

  /** Each of the fields is given back, into any target of its shape. */
  ghost predicate GivesBack(read: Reading, fields: map<string, FieldView>, mds: seq<FieldMetadata>) {
    forall i, t :: 0 <= i < |mds| && mds[i].jediName in fields && SameShape(t, fields[mds[i].jediName]) ==>
      read(mds[i], t) == Some(ComeBack(t, fields[mds[i].jediName], mds[i].noFirstLevel))
  }

  lemma ReadRunNext(read: Reading, targets: map<string, FieldView>, mds: seq<FieldMetadata>, n: nat)
    requires 0 < n <= |mds| && ReadRun(read, targets, mds[..n - 1]).Some?
    ensures ReadRun(read, targets, mds[..n]) == ReadStep(read, ReadRun(read, targets, mds[..n - 1]).value, mds[n - 1])
  {
    assert mds[..n][..n - 1] == mds[..n - 1];
  }

  lemma ReadsNextBack(read: Reading, fields: map<string, FieldView>, mds: seq<FieldMetadata>,
                      targets: map<string, FieldView>, n: nat)
    requires GivesBack(read, fields, mds) && 0 < n <= |mds|
    requires ValidFields(targets) && SameShapes(targets, fields, mds)
    ensures ReadStep(read, AllBack(targets, fields, mds[..n - 1]), mds[n - 1]) ==
              Some(AllBack(targets, fields, mds[..n]))
  {
    var before, md := AllBack(targets, fields, mds[..n - 1]), mds[n - 1];
    AllBackIsValid(targets, fields, mds, n - 1);
    AllBackNext(targets, fields, mds, n - 1);
    assert read(md, before[md.jediName]) == Some(ComeBack(before[md.jediName], fields[md.jediName], md.noFirstLevel));
  }

  lemma {:induction false} ReadsBack(read: Reading, fields: map<string, FieldView>, mds: seq<FieldMetadata>,
                                     targets: map<string, FieldView>, n: nat)
    requires GivesBack(read, fields, mds) && n <= |mds|
    requires ValidFields(targets) && SameShapes(targets, fields, mds)
    ensures ReadRun(read, targets, mds[..n]) == Some(AllBack(targets, fields, mds[..n]))
  {
    if n == 0 {
      assert AllBack(targets, fields, mds[..0]) == targets;
    } else {
      ReadsBack(read, fields, mds, targets, n - 1);
      ReadsNextBack(read, fields, mds, targets, n);
      ReadRunNext(read, targets, mds, n);
    }
  }

  lemma WrittenFileGivesBack(f: NcFile, tree: Tree, atlas: seq<Point>, fields: map<string, FieldView>,
                             mds: seq<FieldMetadata>, conv: Convention)
    requires CanWrite(f, tree, atlas, fields, mds, conv) && (conv.isLfric && !conv.isState ==> SameNames(mds, conv))
    ensures var g := FileFor(f, tree, atlas, fields, mds, conv);
            ReopensAs(g, f, tree, atlas) && GivesBack(ReadingFrom(g, tree, atlas), fields, mds)
  {
    NamesAgreeUnlessIncrement(mds, conv);
    WrittenFileOpens(f, tree, atlas, fields, mds, conv);
    var g := FileFor(f, tree, atlas, fields, mds, conv);
    forall i, t | 0 <= i < |mds| && mds[i].jediName in fields && SameShape(t, fields[mds[i].jediName])
      ensures FieldFrom(g, tree, atlas, mds[i], t) == Some(ComeBack(t, fields[mds[i].jediName], mds[i].noFirstLevel))
    {
      FieldReadBack(f, tree, atlas, fields, mds, conv, i, t);
    }
  }

  lemma RunMakesFile(f: NcFile, tree: Tree, atlas: seq<Point>, fields: map<string, FieldView>, mds: seq<FieldMetadata>,
                     conv: Convention)
    requires CanWrite(f, tree, atlas, fields, mds, conv)
    ensures StoreFor(f, tree, atlas, conv.isLfric).lfricMap == MapFrom(f, tree, atlas)
    ensures var run := Run(RunState(StoreFor(f, tree, atlas, conv.isLfric), EMPTY_FILE), fields, mds, conv);
            run.Some? && run.value.file == FileFor(f, tree, atlas, fields, mds, conv)
  {
    CanWriteRuns(f, tree, atlas, fields, mds, conv);
    RunWrites(StoreFor(f, tree, atlas, conv.isLfric), fields, mds, conv);
  }

  ghost predicate ReopensAs(g: NcFile, f: NcFile, tree: Tree, atlas: seq<Point>)
    requires Opens(f, atlas)
  {
    g.Valid() && Readable(g) && Opens(g, atlas) && MapFrom(g, tree, atlas) == MapFrom(f, tree, atlas)
  }

  /** A run succeeded, its file opens with the same map, and reading it turns one set of
      fields into another. */
  ghost predicate WroteAndRead(run: Option<RunState>, f: NcFile, tree: Tree, atlas: seq<Point>, mds: seq<FieldMetadata>,
                               targets: map<string, FieldView>, back: map<string, FieldView>)
    requires Opens(f, atlas)
  {
    && run.Some? && ReopensAs(run.value.file, f, tree, atlas)
    && ReadRun(ReadingFrom(run.value.file, tree, atlas), targets, mds) == Some(back)
  }

  lemma ReadAllBack(read: Reading, fields: map<string, FieldView>, mds: seq<FieldMetadata>,
                    targets: map<string, FieldView>)
    requires GivesBack(read, fields, mds) && ValidFields(targets) && SameShapes(targets, fields, mds)
    ensures ReadRun(read, targets, mds) == Some(AllBack(targets, fields, mds))
  {
    ReadsBack(read, fields, mds, targets, |mds|);
    assert mds[..|mds|] == mds;
  }

  /** What is written comes back. A run from an opened file never fails; its file opens
      again, in the convention it was written in and with the same map, and reading the
      fields from it gives all of them back exactly, whatever the targets held, except
      those misconfigured, whose targets stay as they were. Of increments in LFRic names
      this asks that the names for reading are the names for writing; Increments says
      which of them come back otherwise. */
  lemma WrittenFieldsComeBack(f: NcFile, tree: Tree, atlas: seq<Point>, fields: map<string, FieldView>,
                              mds: seq<FieldMetadata>, conv: Convention, targets: map<string, FieldView>)
    requires CanWrite(f, tree, atlas, fields, mds, conv) && (conv.isLfric && !conv.isState ==> SameNames(mds, conv))
    requires ValidFields(targets) && SameShapes(targets, fields, mds)
    ensures StoreFor(f, tree, atlas, conv.isLfric).lfricMap == MapFrom(f, tree, atlas)
    ensures WroteAndRead(Run(RunState(StoreFor(f, tree, atlas, conv.isLfric), EMPTY_FILE), fields, mds, conv),
                         f, tree, atlas, mds, targets, AllBack(targets, fields, mds))
  {
    RunMakesFile(f, tree, atlas, fields, mds, conv);
    WrittenFileGivesBack(f, tree, atlas, fields, mds, conv);
    ReadAllBack(ReadingFrom(FileFor(f, tree, atlas, fields, mds, conv), tree, atlas), fields, mds, targets);
  }

  /** Where the map comes from: if the file's points lie within half a gap of grid points
      of their own, it is that pairing, and a permutation. */
  lemma NearbyPointsGiveTheMap(f: NcFile, tree: Tree, atlas: seq<Point>, d: Distance<Point>, gap: real, pairing: Map)
    requires Opens(f, atlas) && Injective(pairing)
    requires Metric(d) && IsClosest(tree, d) && Separated(atlas, d, gap)
    requires Near(pairing, atlas, PointsOf(f.vars[FACE_X].data, f.vars[FACE_Y].data), d, gap)
    ensures MapFrom(f, tree, atlas) == pairing && Permutation(pairing)
  {
    NearestMapIsPairing(tree, atlas, PointsOf(f.vars[FACE_X].data, f.vars[FACE_Y].data), d, gap, pairing);
  }
}
