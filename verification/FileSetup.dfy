/** Getting a store ready for writing: getFileData, cleanFileData and addJediData of
    src/monio/Monio.cc. */
module FileSetup {
  import opened AddIfAbsent
  import opened Store
  import opened NetCdf
  import opened DataOrder
  import opened FieldWriter
  import opened WriteRun
  import opened DateTimes
  import Hyperslab

  const TILE_DIM_NAME := "surface_tiles"
  const TILE_VAR_NAME := "tile_fraction"

  // ---------------------------------------------------------------------------
  // Cleaning
  // ---------------------------------------------------------------------------

  function Shrunk(v: VariableView): VariableView {
    v.WithoutDimension(TIME_DIM_NAME).WithoutDimension(TILE_DIM_NAME)
  }

  function AllShrunk(vars: map<string, VariableView>): (r: map<string, VariableView>)
    ensures r.Keys == vars.Keys
  {
    map k | k in vars :: Shrunk(vars[k])
  }

  function KeptData(data: Containers): Containers { data - {TIME_VAR_NAME, TILE_VAR_NAME} }

  /** The store without its attributes, without time and tiles, and without the
      variables that have no container. */
  function Cleaned(fv: FileView): FileView {
    var data := KeptData(fv.data);
    fv.(meta := Meta(fv.meta.dims - {TIME_DIM_NAME, TILE_DIM_NAME}, Restricted(AllShrunk(fv.meta.vars), data.Keys),
                     map[]),
        data := data)
  }

  ghost predicate UniqueDims(vars: map<string, VariableView>) { forall k :: k in vars ==> Unique(vars[k].dims) }

  lemma ShrunkRemoves(v: VariableView)
    requires Unique(v.dims)
    ensures var r := Shrunk(v).dims;
            && Unique(r) && !HasDim(r, TIME_DIM_NAME) && !HasDim(r, TILE_DIM_NAME)
            && forall d :: d in r <==> d in v.dims && d.0 != TIME_DIM_NAME && d.0 != TILE_DIM_NAME
  {
    WithoutRemoves(v.dims, TIME_DIM_NAME);
    var r := Without(v.dims, TIME_DIM_NAME);
    WithoutRemoves(r, TILE_DIM_NAME);
    forall i | 0 <= i < |Without(r, TILE_DIM_NAME)| ensures Without(r, TILE_DIM_NAME)[i].0 != TIME_DIM_NAME {
      assert Without(r, TILE_DIM_NAME)[i] in r;
    }
  }

  /** Cleaning leaves nothing of time or tiles, and each remaining dimension of a
      variable is still defined with its size. */
  lemma CleanedIsConsistent(fv: FileView)
    requires UniqueDims(fv.meta.vars) && fv.meta.Consistent()
    ensures var m := Cleaned(fv).meta;
            && m.Consistent() && UniqueDims(m.vars) && TIME_DIM_NAME !in m.dims && TILE_DIM_NAME !in m.dims
            && TIME_VAR_NAME !in m.vars && TILE_VAR_NAME !in m.vars
            && TIME_VAR_NAME !in Cleaned(fv).data && TILE_VAR_NAME !in Cleaned(fv).data
            && forall k :: k in m.vars ==>
              !HasDim(m.vars[k].dims, TIME_DIM_NAME) && !HasDim(m.vars[k].dims, TILE_DIM_NAME)
  {
    ShrunkIsConsistent(fv.meta.dims, fv.meta.dims - {TIME_DIM_NAME, TILE_DIM_NAME}, fv.meta.vars,
                       Cleaned(fv).meta.vars);
  }

  lemma ShrunkIsConsistent(dims: map<string, nat>, less: map<string, nat>, vars: map<string, VariableView>,
                           kept: map<string, VariableView>)
    requires UniqueDims(vars) && Meta(dims, vars, map[]).Consistent()
    requires forall d :: d in dims && d != TIME_DIM_NAME && d != TILE_DIM_NAME ==> d in less && less[d] == dims[d]
    requires forall k :: k in kept ==> k in vars && kept[k] == Shrunk(vars[k])
    ensures Meta(less, kept, map[]).Consistent() && UniqueDims(kept)
    ensures forall k :: k in kept ==> !HasDim(kept[k].dims, TIME_DIM_NAME) && !HasDim(kept[k].dims, TILE_DIM_NAME)
  {
    forall k | k in kept
      ensures Unique(kept[k].dims) && !HasDim(kept[k].dims, TIME_DIM_NAME) && !HasDim(kept[k].dims, TILE_DIM_NAME)
      ensures forall d :: d in kept[k].dims ==> d.0 in less && less[d.0] == d.1
    {
      ShrunkRemoves(vars[k]);
      forall d | d in kept[k].dims ensures d.0 in less && less[d.0] == d.1 {
        var i :| 0 <= i < |vars[k].dims| && vars[k].dims[i] == d;
      }
    }
    forall k, i | k in kept && 0 <= i < |kept[k].dims|
      ensures kept[k].dims[i].0 in less && less[kept[k].dims[i].0] == kept[k].dims[i].1
    {
      assert kept[k].dims[i] in kept[k].dims;
    }
  }

  /** Variables and containers correspond after cleaning exactly when, time and tiles
      aside, every container had a variable. */
  lemma CleanedMatchesIff(fv: FileView)
    ensures Cleaned(fv).meta.vars.Keys == Cleaned(fv).data.Keys <==> KeptData(fv.data).Keys <= fv.meta.vars.Keys
  {
  }

  /** No time or tile dimension is listed by a variable that has data. */
  ghost predicate Timeless(fv: FileView) {
    forall k :: k in KeptData(fv.data) && k in fv.meta.vars ==>
      !HasDim(fv.meta.vars[k].dims, TIME_DIM_NAME) && !HasDim(fv.meta.vars[k].dims, TILE_DIM_NAME)
  }

  /** Every container, time and tiles aside, is that of a variable. */
  ghost predicate Loaded(fv: FileView) {
    forall k :: k in KeptData(fv.data) ==> k in fv.meta.vars && Fits(fv.meta.dims, fv.meta.vars[k], fv.data[k], k)
  }

  /** A cleaned store can be written, and what it keeps is as it was. */
  lemma CleanedIsReady(fv: FileView)
    requires Loaded(fv) && Timeless(fv)
    ensures Ready(Cleaned(fv)) && Cleaned(fv).data == KeptData(fv.data)
    ensures forall k :: k in Cleaned(fv).data ==> k in fv.meta.vars && Cleaned(fv).meta.vars[k] == fv.meta.vars[k]
  {
    forall k | k in KeptData(fv.data)
      ensures Shrunk(fv.meta.vars[k]) == fv.meta.vars[k]
      ensures Fits(Cleaned(fv).meta.dims, fv.meta.vars[k], fv.data[k], k)
    {
      TimelessFits(fv.meta.dims, fv.meta.vars[k], fv.data[k], k);
    }
  }

  lemma TimelessFits(dims: map<string, nat>, v: VariableView, c: Container, k: string)
    requires Fits(dims, v, c, k) && !HasDim(v.dims, TIME_DIM_NAME) && !HasDim(v.dims, TILE_DIM_NAME)
    ensures Shrunk(v) == v && Fits(dims - {TIME_DIM_NAME, TILE_DIM_NAME}, v, c, k)
  {
    WithoutAbsent(v.dims, TIME_DIM_NAME);
    WithoutAbsent(v.dims, TILE_DIM_NAME);
  }

  lemma RestrictedNext<V>(m: map<string, V>, keys: set<string>, rest: set<string>, k: string)
    requires k in rest && rest <= m.Keys
    ensures k !in keys ==> k in Restricted(m, keys + rest)
    ensures Restricted(m, keys + (rest - {k})) == Restricted(m, keys + rest) - (if k in keys then {} else {k})
  {
  }

  /** Each name is looked for before it is deleted: the error for a missing variable
      cannot occur. */
  method KeepVariables(metadata: Metadata, keys: set<string>)
    requires metadata.Valid()
    modifies metadata`variables
    ensures metadata.Valid() && metadata.variables == Restricted(old(metadata.variables), keys)
  {
    var rest := metadata.variables.Keys;
    ghost var was := metadata.variables;
    assert Restricted(was, keys + rest) == was;
    while rest != {}
      invariant metadata.Valid() && rest <= was.Keys && metadata.variables == Restricted(was, keys + rest)
      decreases |rest|
    {
      var k :| k in rest;
      RestrictedNext(was, keys, rest, k);
      if k !in keys {
        var ok := metadata.DeleteVariable(k);
        assert ok;
      }
      rest := rest - {k};
    }
    assert keys + rest == keys;
  }

  lemma ShrunkInTwo(m: Meta)
    ensures m.DeleteDimension(TIME_DIM_NAME).DeleteDimension(TILE_DIM_NAME) ==
            Meta(m.dims - {TIME_DIM_NAME, TILE_DIM_NAME}, AllShrunk(m.vars), m.attrs)
  {
  }

  method ForgetTimeAndTiles(metadata: Metadata)
    requires metadata.Valid()
    modifies metadata, metadata.variables.Values
    ensures metadata.Valid() && metadata.variables == old(metadata.variables)
    ensures metadata.View() ==
              Meta(old(metadata.dimensions) - {TIME_DIM_NAME, TILE_DIM_NAME},
                   AllShrunk(old(ViewsOf(metadata.variables))), map[])
  {
    ghost var m := metadata.View();
    metadata.ClearGlobalAttributes();
    metadata.DeleteDimension(TIME_DIM_NAME);
    metadata.DeleteDimension(TILE_DIM_NAME);
    ShrunkInTwo(m.(attrs := map[]));
  }

  lemma RestrictedViews(vs: map<string, Variable>, keys: set<string>)
    ensures ViewsOf(Restricted(vs, keys)) == Restricted(ViewsOf(vs), keys)
  {
  }

  method DropTimeAndTiles(data: Data)
    modifies data
    ensures data.containers == KeptData(old(data.containers))
  {
    data.DeleteContainer(TIME_VAR_NAME);
    data.DeleteContainer(TILE_VAR_NAME);
  }

  /** Cleaning reaches the objects of every variable, also of those that are dropped and
      those that another store shares. */
  method CleanFileData(fileData: FileData)
    requires fileData.Valid()
    modifies fileData.data, fileData.metadata, fileData.metadata.variables.Values
    ensures fileData.Valid() && fileData.View() == Cleaned(old(fileData.View()))
    ensures var vs := old(fileData.metadata.variables); AllValid(vs) && ViewsOf(vs) == AllShrunk(old(ViewsOf(vs)))
  {
    ghost var fv, vs := fileData.View(), fileData.metadata.variables;
    ForgetTimeAndTiles(fileData.metadata);
    ghost var views := ViewsOf(vs);
    DropTimeAndTiles(fileData.data);
    assert AllValid(vs) && ViewsOf(vs) == views;
    RestrictedViews(vs, fileData.data.containers.Keys);
    KeepVariables(fileData.metadata, fileData.data.containers.Keys);
    assert AllValid(vs) && ViewsOf(vs) == views &&
      fileData.metadata.dimensions == fv.meta.dims - {TIME_DIM_NAME, TILE_DIM_NAME};
    assert ViewsOf(fileData.metadata.variables) == Cleaned(fv).meta.vars;
  }

  // ---------------------------------------------------------------------------
  // Level data of the JEDI convention
  // ---------------------------------------------------------------------------

  const FULL_NO_SURF_NAME := "full_levels_no_surf"
  const HALF_WITH_TOP_NAME := "half_levels_with_top"
  const FULL_NO_SURF_SIZE: nat := 70
  const HALF_WITH_TOP_SIZE: nat := 71
  const LEVEL_NAME_ATTR := "name"

  function LevelVariable(name: string, size: nat): VariableView {
    VariableView(name, DoubleType, [(name, size)], map[LEVEL_NAME_ATTR := StringAttr(name)])
  }

  /** The values first, first + 1, ... */
  function LevelContainer(name: string, size: nat, first: real): Container {
    Container(name, DoubleType, seq(size, i => first + i as real))
  }

  function WithLevels(fv: FileView, name: string, size: nat, first: real): FileView {
    fv.(meta := fv.meta.AddDimension(name, size).AddVariable(LevelVariable(name, size)),
        data := WithContainer(fv.data, LevelContainer(name, size, first)))
  }

  function WithJediData(fv: FileView): FileView {
    WithLevels(WithLevels(fv, FULL_NO_SURF_NAME, FULL_NO_SURF_SIZE, 1.0), HALF_WITH_TOP_NAME, HALF_WITH_TOP_SIZE, 0.5)
  }

  /** Adding a level variable changes no other, and the store stays ready exactly when
      the dimension is new or has that size, or the variable was there. */
  lemma WithLevelsIsReady(fv: FileView, name: string, size: nat, first: real)
    requires Ready(fv)
    ensures var r := WithLevels(fv, name, size, first);
            && r.meta.vars.Keys == r.data.Keys == fv.data.Keys + {name} && r.lfricMap == fv.lfricMap
            && r.meta.attrs == fv.meta.attrs && r.meta.dims.Keys == fv.meta.dims.Keys + {name}
            && Within(fv.meta.dims, r.meta.dims) && Within(fv.meta.vars, r.meta.vars) && Within(fv.data, r.data)
            && (Ready(r) <==> (name in fv.meta.dims && name !in fv.meta.vars ==> fv.meta.dims[name] == size))
  {
    var r := WithLevels(fv, name, size, first);
    LevelFitsIff(r.meta.dims, name, size, first);
    forall k | k in fv.meta.vars ensures Fits(r.meta.dims, r.meta.vars[k], r.data[k], k) {
      assert Fits(fv.meta.dims, fv.meta.vars[k], fv.data[k], k);
    }
  }

  /** Level data are added to variables and containers alike. */
  lemma JediDataMatches(fv: FileView)
    requires fv.meta.vars.Keys == fv.data.Keys
    ensures WithJediData(fv).meta.vars.Keys == WithJediData(fv).data.Keys ==
              fv.data.Keys + {FULL_NO_SURF_NAME, HALF_WITH_TOP_NAME}
    ensures Within(fv.meta.vars, WithJediData(fv).meta.vars) && Within(fv.data, WithJediData(fv).data)
  {
    var r := WithLevels(fv, FULL_NO_SURF_NAME, FULL_NO_SURF_SIZE, 1.0);
    assert r.meta.vars.Keys == r.data.Keys == fv.data.Keys + {FULL_NO_SURF_NAME};
    assert Within(fv.meta.vars, r.meta.vars) && Within(fv.data, r.data);
  }

  lemma LevelFitsIff(dims: map<string, nat>, name: string, size: nat, first: real)
    requires name in dims
    ensures Fits(dims, LevelVariable(name, size), LevelContainer(name, size, first), name) <==> dims[name] == size
  {
    var v := LevelVariable(name, size);
    Hyperslab.ProductSnoc([], size);
    assert Hyperslab.Sizes(v.dims) == [] + [size];
  }

  method AddLevelMetadata(metadata: Metadata, name: string, size: nat)
    requires metadata.Valid()
    modifies metadata`dimensions, metadata`variables
    ensures metadata.Valid() && fresh(metadata.variables.Values - old(metadata.variables.Values))
    ensures metadata.View() == old(metadata.View()).AddDimension(name, size).AddVariable(LevelVariable(name, size))
  {
    ghost var views := ViewsOf(metadata.variables);
    metadata.AddDimension(name, size);
    var v := BuildLevelVariable(name, size);
    assert ViewsOf(metadata.variables) == views;
    metadata.AddVariable(v);
  }

  method AddLevels(fileData: FileData, name: string, size: nat, first: real)
    requires fileData.Valid()
    modifies fileData.metadata, fileData.data
    ensures fileData.Valid() && fileData.View() == WithLevels(old(fileData.View()), name, size, first)
    ensures fresh(fileData.metadata.variables.Values - old(fileData.metadata.variables.Values))
  {
    AddLevelMetadata(fileData.metadata, name, size);
    ghost var m := fileData.metadata.View();
    fileData.data.AddContainer(LevelContainer(name, size, first));
    assert fileData.metadata.View() == m;
  }

  method BuildLevelVariable(name: string, size: nat) returns (v: Variable)
    ensures fresh(v) && v.Valid() && v.View() == LevelVariable(name, size)
  {
    v := new Variable(name, DoubleType);
    var ok := v.AddDimension(name, size);
    ok := v.AddAttribute(LEVEL_NAME_ATTR, StringAttr(name));
  }

  method AddJediData(fileData: FileData)
    requires fileData.Valid()
    modifies fileData.metadata, fileData.data
    ensures fileData.Valid() && fileData.View() == WithJediData(old(fileData.View()))
    ensures fresh(fileData.metadata.variables.Values - old(fileData.metadata.variables.Values))
  {
    AddLevels(fileData, FULL_NO_SURF_NAME, FULL_NO_SURF_SIZE, 1.0);
    AddLevels(fileData, HALF_WITH_TOP_NAME, HALF_WITH_TOP_SIZE, 0.5);
  }

  // ---------------------------------------------------------------------------
  // A working copy of a store
  // ---------------------------------------------------------------------------

  function Prepared(fv: FileView, isLfric: bool): FileView {
    if isLfric then Cleaned(fv) else WithJediData(Cleaned(fv))
  }

  /** The store that is copied keeps its dimensions, its variables, as objects, and its
      containers; but these objects lose the dimensions that cleaning removes. */
  method CleanCopy(store: FileData) returns (fileData: FileData)
    requires store.Valid()
    modifies store.metadata.variables.Values
    ensures fresh({fileData, fileData.data, fileData.metadata})
    ensures fileData.Valid() && fileData.View() == Cleaned(old(store.View()))
    ensures store.Valid() && store.View() == ViewAfterCopyCleaned(old(store.View()))
  {
    fileData := new FileData.Copy(store);
    CleanFileData(fileData);
  }

  method PrepareForWriting(store: FileData, isLfric: bool) returns (fileData: FileData)
    requires store.Valid()
    modifies store.metadata.variables.Values
    ensures fresh({fileData, fileData.data, fileData.metadata})
    ensures fileData.Valid() && fileData.View() == Prepared(old(store.View()), isLfric)
    ensures store.Valid() && store.View() == ViewAfterCopyCleaned(old(store.View()))
  {
    fileData := CleanCopy(store);
    if isLfric { return; }
    ghost var left, cleaned := store.View(), fileData.View();
    AddJediData(fileData);
    assert store.View() == left;
    assert fileData.View() == WithJediData(cleaned);
  }

  /** Preparing does not touch the fields that will be written. */
  method PrepareBesideFields(store: FileData, isLfric: bool, fields: map<string, Field>) returns (fileData: FileData)
    requires store.Valid()
    modifies store.metadata.variables.Values
    ensures fresh({fileData, fileData.data, fileData.metadata})
    ensures fileData.Valid() && fileData.View() == Prepared(old(store.View()), isLfric)
    ensures store.Valid() && store.View() == ViewAfterCopyCleaned(old(store.View()))
    ensures FieldViews(fields) == old(FieldViews(fields)) && fileData.lfricAtlasMap == old(store.lfricAtlasMap)
  {
    ghost var views, fv := FieldViews(fields), store.View();
    fileData := PrepareForWriting(store, isLfric);
    SameViews(fields, views);
    PreparedMap(fv, isLfric);
  }

  lemma PreparedMap(fv: FileView, isLfric: bool)
    ensures Prepared(fv, isLfric).lfricMap == fv.lfricMap
  {
  }

  lemma SameViews(fields: map<string, Field>, views: map<string, FieldView>)
    requires views.Keys == fields.Keys && forall k :: k in fields ==> fields[k].View() == views[k]
    ensures FieldViews(fields) == views
  {
  }

  /** The outcome of a run from what is prepared of a store, and the file if it succeeds. */
  ghost predicate WroteState(fv: FileView, fields: map<string, FieldView>, mds: seq<FieldMetadata>, conv: Convention,
                             ok: bool, f: NcFile)
    requires InRange(fv.lfricMap) && ValidFields(fields)
  {
    var s := Run(RunState(Prepared(fv, conv.isLfric), EMPTY_FILE), fields, mds, conv);
    ok == s.Some? && (ok ==> f == s.value.file)
  }

  method WriteFieldsKeepingStore(store: FileData, file: File, fileData: FileData, fields: map<string, Field>,
                                 mds: seq<FieldMetadata>, conv: Convention) returns (ok: bool)
    requires store.Valid() && fileData.Valid() && InRange(fileData.lfricAtlasMap)
    requires store.data != fileData.data && store.metadata != fileData.metadata
    modifies file, fileData.metadata, fileData.data
    ensures store.Valid() && store.View() == old(store.View())
    ensures var s := Run(RunState(old(fileData.View()), old(file.nc)), old(FieldViews(fields)), mds, conv);
            ok == s.Some? && (ok ==> file.nc == s.value.file)
  {
    ghost var fv := store.View();
    ok := WriteFields(file, fileData, fields, mds, conv);
    assert store.View() == fv;
  }

  /** A working copy is prepared, and the fields are written with it to a new file. The
      store is left with shortened variables. */
  method WriteFromStore(store: FileData, file: File, fields: map<string, Field>, mds: seq<FieldMetadata>,
                        conv: Convention)
    returns (ok: bool)
    requires store.Valid() && file.nc == EMPTY_FILE && InRange(store.lfricAtlasMap)
    modifies file, store.metadata.variables.Values
    ensures store.Valid() && store.View() == ViewAfterCopyCleaned(old(store.View()))
    ensures WroteState(old(store.View()), old(FieldViews(fields)), mds, conv, ok, file.nc)
  {
    var fileData := PrepareBesideFields(store, conv.isLfric, fields);
    ok := WriteFieldsKeepingStore(store, file, fileData, fields, mds, conv);
  }

  /** writeState and writeIncrements: no fields at all are an error. */
  method WriteState(store: FileData, file: File, fields: map<string, Field>, mds: seq<FieldMetadata>, conv: Convention)
    returns (ok: bool)
    requires store.Valid() && file.nc == EMPTY_FILE && InRange(store.lfricAtlasMap)
    modifies file, store.metadata.variables.Values
    ensures fields == map[] ==> !ok && file.nc == EMPTY_FILE && store.Valid() && store.View() == old(store.View())
    ensures fields != map[] ==> store.Valid() && store.View() == ViewAfterCopyCleaned(old(store.View()))
    ensures fields != map[] ==> WroteState(old(store.View()), old(FieldViews(fields)), mds, conv, ok, file.nc)
  {
    if |fields| == 0 { return false; }
    ok := WriteFromStore(store, file, fields, mds, conv);
  }

  lemma ShrunkTwice(v: VariableView)
    requires Unique(v.dims)
    ensures Shrunk(Shrunk(v)) == Shrunk(v)
  {
    ShrunkRemoves(v);
    WithoutAbsent(Shrunk(v).dims, TIME_DIM_NAME);
    WithoutAbsent(Shrunk(v).dims, TILE_DIM_NAME);
  }

  /** A second copy from a store whose variables were shortened is prepared like the first. */
  lemma PreparedAlike(fv: FileView, isLfric: bool)
    requires UniqueDims(fv.meta.vars)
    ensures Prepared(ViewAfterCopyCleaned(fv), isLfric) == Prepared(fv, isLfric)
    ensures ViewAfterCopyCleaned(ViewAfterCopyCleaned(fv)) == ViewAfterCopyCleaned(fv)
  {
    forall k | k in fv.meta.vars ensures Shrunk(Shrunk(fv.meta.vars[k])) == Shrunk(fv.meta.vars[k]) {
      ShrunkTwice(fv.meta.vars[k]);
    }
    assert AllShrunk(AllShrunk(fv.meta.vars)) == AllShrunk(fv.meta.vars);
  }

  function ViewAfterCopyCleaned(fv: FileView): FileView { fv.(meta := fv.meta.(vars := AllShrunk(fv.meta.vars))) }

  /** The store stays consistent, and has the same names throughout. */
  lemma SharedVariablesStayConsistent(fv: FileView)
    requires UniqueDims(fv.meta.vars) && fv.meta.Consistent()
    ensures var r := ViewAfterCopyCleaned(fv);
            && r.meta.Consistent() && UniqueDims(r.meta.vars)
            && r.meta.dims == fv.meta.dims && r.meta.vars.Keys == fv.meta.vars.Keys && r.data == fv.data
  {
    ShrunkIsConsistent(fv.meta.dims, fv.meta.dims, fv.meta.vars, AllShrunk(fv.meta.vars));
  }

  /** The size of the first dimension of that name; one, if there is none. */
  function SizeOf(dims: Dimensions, dimName: string): nat {
    if dims == [] then 1 else if dims[0].0 == dimName then dims[0].1 else SizeOf(dims[1..], dimName)
  }

  lemma {:induction false} WithoutDivides(dims: Dimensions, dimName: string)
    ensures Hyperslab.TotalSize(dims) == SizeOf(dims, dimName) * Hyperslab.TotalSize(Without(dims, dimName))
    decreases |dims|
  {
    if dims != [] {
      Hyperslab.TotalSizeCons(dims);
      if dims[0].0 != dimName {
        var rest, size, first := Without(dims[1..], dimName), SizeOf(dims[1..], dimName), dims[0].1;
        WithoutDivides(dims[1..], dimName);
        assert Without(dims, dimName) == [dims[0]] + rest && ([dims[0]] + rest)[1..] == rest;
        Hyperslab.TotalSizeCons([dims[0]] + rest);
        Regroup(first, size, Hyperslab.TotalSize(rest));
      }
    }
  }

  lemma Regroup(a: nat, b: nat, c: nat)
    ensures a * (b * c) == b * (a * c)
  {
  }

  lemma {:induction false} SizeOfOther(dims: Dimensions, dimName: string, other: string)
    requires dimName != other
    ensures SizeOf(Without(dims, other), dimName) == SizeOf(dims, dimName)
    decreases |dims|
  {
    if dims != [] && dims[0].0 != other {
      SizeOfOther(dims[1..], dimName, other);
      assert ([dims[0]] + Without(dims[1..], other))[1..] == Without(dims[1..], other);
    }
  }

  /** What the size of a shared variable becomes: a variable of the store that is read
      again after cleaning a copy has its full size only if there was one time and one
      tile, or no data to begin with. */
  lemma SharedVariableSize(v: VariableView)
    ensures v.TotalSize() == SizeOf(v.dims, TIME_DIM_NAME) * SizeOf(v.dims, TILE_DIM_NAME) * Shrunk(v).TotalSize()
    ensures Shrunk(v).TotalSize() == v.TotalSize() <==>
            (SizeOf(v.dims, TIME_DIM_NAME) == 1 && SizeOf(v.dims, TILE_DIM_NAME) == 1) || Shrunk(v).TotalSize() == 0
  {
    var times, tiles, size := SizeOf(v.dims, TIME_DIM_NAME), SizeOf(v.dims, TILE_DIM_NAME), Shrunk(v).TotalSize();
    WithoutDivides(v.dims, TIME_DIM_NAME);
    WithoutDivides(Without(v.dims, TIME_DIM_NAME), TILE_DIM_NAME);
    SizeOfOther(v.dims, TILE_DIM_NAME, TIME_DIM_NAME);
    assert v.TotalSize() == times * (tiles * size);
    FactorIsOne(times, tiles, size);
  }

  lemma FactorIsOne(a: nat, b: nat, c: nat)
    ensures a * (b * c) == a * b * c
    ensures a * b * c == c <==> (a == 1 && b == 1) || c == 0
  {
    if a * b * c == c && c != 0 {
      assert (a * b) * c == 1 * c;
      assert a * b == 1;
    }
  }
}