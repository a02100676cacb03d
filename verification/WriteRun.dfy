/** The loop that writes one field after another (writeState, writeIncrements and
    writeFieldSet of src/monio/Monio.cc), as steps over the store and the file. */
module WriteRun {
  import opened Options
  import opened AddIfAbsent
  import opened Store
  import opened NetCdf
  import opened Transfer
  import opened DataOrder
  import opened FieldWriter
  import Hyperslab

  // ---------------------------------------------------------------------------
  // Writing what is in a store
  // ---------------------------------------------------------------------------

  /** Container and variable belong together, and the dimensions are defined. */
  ghost predicate Fits(dims: map<string, nat>, v: VariableView, c: Store.Container, k: string) {
    && v.name == k && c.name == k && c.typ == v.typ && |c.data| == v.TotalSize()
    && forall i :: 0 <= i < |v.dims| ==> v.dims[i].0 in dims && dims[v.dims[i].0] == v.dims[i].1
  }

  /** Every variable has its container and the other way round. */
  ghost predicate Ready(fv: FileView) {
    && fv.data.Keys == fv.meta.vars.Keys
    && forall k :: k in fv.meta.vars ==> Fits(fv.meta.dims, fv.meta.vars[k], fv.data[k], k)
  }

  function AsWritten(v: VariableView, c: Store.Container): NcVar {
    NcVar(WriteType(v.typ), DimNames(v.dims), WriteAttrs(v.attrs), c.data)
  }

  ghost function WrittenVars(fv: FileView): (r: map<string, NcVar>)
    requires Ready(fv)
    ensures r.Keys == fv.meta.vars.Keys
  {
    map k | k in fv.meta.vars :: AsWritten(fv.meta.vars[k], fv.data[k])
  }

  lemma FittingIsWritten(dims: map<string, nat>, v: VariableView, c: Store.Container, k: string)
    requires Fits(dims, v, c, k)
    ensures Defines(dims, DimNames(v.dims)) && Shape(dims, DimNames(v.dims)) == v.dims
    ensures CanFill(NewVar(dims, v), c) && Filled(NewVar(dims, v), c) == AsWritten(v, c)
  {
    forall d | d in DimNames(v.dims) ensures d in dims {
      var i :| 0 <= i < |v.dims| && DimNames(v.dims)[i] == d;
      assert v.dims[i].0 == d;
    }
    assert Shape(dims, DimNames(v.dims)) == v.dims;
  }

  lemma ReadyIsWritable(fv: FileView, f: NcFile)
    requires Ready(fv) && Within(f.dims, fv.meta.dims)
    ensures WithDims(f, fv.meta).dims == fv.meta.dims && Writable(f, fv.meta)
  {
    WithinUnion(f.dims, fv.meta.dims);
    forall k | k in fv.meta.vars ensures Defines(fv.meta.dims, DimNames(fv.meta.vars[k].dims)) {
      FittingIsWritten(fv.meta.dims, fv.meta.vars[k], fv.data[k], k);
    }
  }

  lemma AllAreFilled(f: map<string, NcVar>, added: map<string, NcVar>, views: map<string, VariableView>,
                     data: Containers, written: map<string, NcVar>, g: NcFile)
    requires g.vars == added + f && added.Keys == views.Keys == data.Keys == written.Keys
    requires forall k :: k in added ==> CanFill(g.vars[k], data[k]) && Filled(g.vars[k], data[k]) == written[k]
    ensures DataWritable(g, views, data) && FileWithData(g, data) == g.(vars := f + written)
  {
    assert g.vars.Keys == (f + written).Keys;
    assert FileWithData(g, data).vars == f + written;
  }

  /** What the file has of these variables is what would be written. */
  ghost predicate Agrees(fv: FileView, f: NcFile)
    requires Ready(fv)
  {
    forall k :: k in fv.meta.vars && k in f.vars ==> f.vars[k] == WrittenVars(fv)[k]
  }

  /** A store whose dimensions agree with the file, and whose variables are new to it or
      the same in it, is written whole, and nothing in the file is altered. The writer's
      error for a container without a variable cannot occur. */
  lemma ReadyStoreIsWritten(fv: FileView, f: NcFile)
    requires Ready(fv) && Within(f.dims, fv.meta.dims) && Agrees(fv, f)
    ensures var g := FileWith(f, fv.meta);
            && Writable(f, fv.meta) && DataWritable(g, fv.meta.vars, fv.data)
            && FileWithData(g, fv.data) ==
               NcFile(fv.meta.dims, f.vars + WrittenVars(fv), WriteAttrs(fv.meta.attrs) + f.attrs)
  {
    ReadyIsWritable(fv, f);
    var added, g := NewVars(fv.meta.dims, fv.meta.vars), FileWith(f, fv.meta);
    forall k | k in fv.meta.vars
      ensures CanFill(g.vars[k], fv.data[k]) && Filled(g.vars[k], fv.data[k]) == WrittenVars(fv)[k]
    {
      FittingIsWritten(fv.meta.dims, fv.meta.vars[k], fv.data[k], k);
    }
    AllAreFilled(f.vars, added, fv.meta.vars, fv.data, WrittenVars(fv), g);
  }

  // ---------------------------------------------------------------------------
  // One field
  // ---------------------------------------------------------------------------

  datatype RunState = RunState(store: FileView, file: NcFile)

  /** Write what the store holds, then forget everything but its dimensions. */
  function Flushed(store: FileView, file: NcFile): Option<RunState> {
    if !StoreWritable(file, store) then None else Some(RunState(store.Cleared(), FileWithStore(file, store)))
  }

  /** The naming in force: LFRic or JEDI names, and for LFRic those of a state file or
      of an increment file. */
  datatype Convention = Convention(isLfric: bool, isState: bool)

  function WriteName(md: FieldMetadata, conv: Convention): string {
    if conv.isLfric then (if conv.isState then md.lfricReadName else md.lfricWriteName) else md.jediName
  }

  function VertConfigName(md: FieldMetadata, conv: Convention): string {
    if conv.isLfric then md.lfricVertConfig else md.jediVertConfig
  }

  /** One round of the loop; a field that is not there, or under JEDI names one that is
      called otherwise, is an error. */
  ghost function Stepped(st: RunState, fields: map<string, FieldView>, md: FieldMetadata, conv: Convention)
    : Option<RunState>
    requires InRange(st.store.lfricMap) && forall k :: k in fields ==> fields[k].Valid()
  {
    if md.jediName !in fields || (!conv.isLfric && fields[md.jediName].name != md.jediName) then None
    else SteppedWith(st, fields[md.jediName], md, conv)
  }

  ghost function SteppedWith(st: RunState, field: FieldView, md: FieldMetadata, conv: Convention): Option<RunState>
    requires InRange(st.store.lfricMap) && field.Valid()
  {
    match Populated(st.store, field, md, WriteName(md, conv), VertConfigName(md, conv), conv.isLfric)
    case None => None
    case Some(p) => Flushed(p, st.file)
  }

  ghost predicate ValidFields(fields: map<string, FieldView>) { forall k :: k in fields ==> fields[k].Valid() }

  ghost function Run(st: RunState, fields: map<string, FieldView>, mds: seq<FieldMetadata>, conv: Convention)
    : (r: Option<RunState>)
    requires InRange(st.store.lfricMap) && ValidFields(fields)
    ensures r.Some? ==> r.value.store.lfricMap == st.store.lfricMap
  {
    if mds == [] then Some(st)
    else
      var n := |mds| - 1;
      match Run(st, fields, mds[..n], conv)
      case None => None
      case Some(st') => Stepped(st', fields, mds[n], conv)
  }

  // ---------------------------------------------------------------------------
  // What a field needs, and what it becomes in the file
  // ---------------------------------------------------------------------------

  /** The field can be written: its levels and name are as configured, it has a value
      for every point of the map, and its sizes have dimensions, different ones. */
  ghost predicate Writes(dims: map<string, nat>, lfricMap: Map, fields: map<string, FieldView>, md: FieldMetadata,
                         conv: Convention)
    requires ValidFields(fields)
  {
    && md.jediName in fields && (conv.isLfric || fields[md.jediName].name == md.jediName)
    && var w := ToWrite(fields[md.jediName], WriteName(md, conv), md.noFirstLevel, conv.isLfric);
       && w.Some? && w.value.points == |lfricMap|
       && ListDims(dims, [w.value.levels, w.value.points], VertConfigName(md, conv)).Some?
       && SizeKnown(dims, w.value.levels, VertConfigName(md, conv))
       && SizeKnown(dims, w.value.points, VertConfigName(md, conv))
  }

  ghost predicate HasSize(dims: map<string, nat>, size: nat) { exists d :: d in dims && dims[d] == size }

  lemma SizeHasName(dims: map<string, nat>, size: nat, vertConfigName: string)
    requires NOT_FOUND !in dims
    ensures var d := DimNameFor(dims, size, vertConfigName);
            && (d != NOT_FOUND <==> HasSize(dims, size))
            && (d != NOT_FOUND ==> d in dims && dims[d] == size)
  {
    var names := set k | k in dims && dims[k] == size;
    if HasSize(dims, size) {
      var d :| d in dims && dims[d] == size;
      assert d in names;
    }
  }

  /** One dimension for each size that has a name. */
  function Named(name: string, size: nat): Dimensions { if name == NOT_FOUND then [] else [(name, size)] }

  lemma TwoSizesListed(dims: map<string, nat>, a: nat, b: nat, vertConfigName: string)
    ensures var m, n := DimNameFor(dims, a, vertConfigName), DimNameFor(dims, b, vertConfigName);
            ListDims(dims, [a, b], vertConfigName) ==
            if m == n != NOT_FOUND then None else Some(Named(m, a) + Named(n, b))
  {
    var m, n := DimNameFor(dims, a, vertConfigName), DimNameFor(dims, b, vertConfigName);
    var sizes := [a, b];
    assert |sizes| == 2 && sizes[1] == b && sizes[..1] == [a] && [a][..0] == [];
    OneSizeListed(dims, a, vertConfigName);
    assert HasDim(Named(m, a), n) <==> m == n != NOT_FOUND by {
      if m == n != NOT_FOUND { assert Named(m, a)[0].0 == n; }
    }
    assert Named(m, a) + [] == Named(m, a);
  }

  lemma OneSizeListed(dims: map<string, nat>, a: nat, vertConfigName: string)
    ensures ListDims(dims, [a], vertConfigName) == Some(Named(DimNameFor(dims, a, vertConfigName), a))
  {
    var none: Dimensions, name := [], DimNameFor(dims, a, vertConfigName);
    assert [a][..0] == [] && ListDims(dims, [], vertConfigName) == Some(none);
    assert !HasDim(none, name) && none + [(name, a)] == [(name, a)];
  }

  /** When a field that is configured as it should be can be written: it has a value for
      every point, each of its sizes is one or that of a dimension, and the two are not
      those of one dimension. */
  lemma FieldWritesIff(dims: map<string, nat>, lfricMap: Map, fields: map<string, FieldView>, md: FieldMetadata,
                       conv: Convention)
    requires ValidFields(fields) && md.jediName in fields && (conv.isLfric || fields[md.jediName].name == md.jediName)
    requires ToWrite(fields[md.jediName], WriteName(md, conv), md.noFirstLevel, conv.isLfric).Some?
    requires NOT_FOUND !in dims
    ensures var w := ToWrite(fields[md.jediName], WriteName(md, conv), md.noFirstLevel, conv.isLfric).value;
            Writes(dims, lfricMap, fields, md, conv) <==>
              && w.points == |lfricMap|
              && (w.levels == 1 || HasSize(dims, w.levels)) && (w.points == 1 || HasSize(dims, w.points))
              && (w.levels != w.points || !HasSize(dims, w.levels))
  {
    var w := ToWrite(fields[md.jediName], WriteName(md, conv), md.noFirstLevel, conv.isLfric).value;
    SizeHasName(dims, w.levels, VertConfigName(md, conv));
    SizeHasName(dims, w.points, VertConfigName(md, conv));
    TwoSizesListed(dims, w.levels, w.points, VertConfigName(md, conv));
  }

  ghost function FieldToWrite(fields: map<string, FieldView>, md: FieldMetadata, conv: Convention): (w: FieldView)
    requires ValidFields(fields) && md.jediName in fields
    requires ToWrite(fields[md.jediName], WriteName(md, conv), md.noFirstLevel, conv.isLfric).Some?
    ensures w.Valid()
  {
    ToWrite(fields[md.jediName], WriteName(md, conv), md.noFirstLevel, conv.isLfric).value
  }

  /** The variable of a field in the file: dimensions by level and point, the attributes
      of an increment, and the values in LFRic order. */
  ghost function FieldNcVar(dims: map<string, nat>, lfricMap: Map, fields: map<string, FieldView>, md: FieldMetadata,
                            conv: Convention): NcVar
    requires ValidFields(fields) && InRange(lfricMap) && Writes(dims, lfricMap, fields, md, conv)
  {
    var w := FieldToWrite(fields, md, conv);
    var listed := ListDims(dims, [w.levels, w.points], VertConfigName(md, conv)).value;
    NcVar(WriteType(w.typ), DimNames(listed), WriteAttrs(IncrementAttrs(md)),
          DataOrder.Container(lfricMap, w.cells, w.levels))
  }

  lemma FieldFits(dims: map<string, nat>, lfricMap: Map, w: FieldView, md: FieldMetadata, name: string,
                  vertConfigName: string)
    requires w.Valid() && InRange(lfricMap) && w.points == |lfricMap|
    requires ListDims(dims, [w.levels, w.points], vertConfigName).Some?
    requires SizeKnown(dims, w.levels, vertConfigName) && SizeKnown(dims, w.points, vertConfigName)
    ensures FieldVariable(dims, w, md, name, vertConfigName).Some? && FieldContainer(lfricMap, w, name).Some?
    ensures FieldContainer(lfricMap, w, name).value.data == DataOrder.Container(lfricMap, w.cells, w.levels)
    ensures Fits(dims, FieldVariable(dims, w, md, name, vertConfigName).value, FieldContainer(lfricMap, w, name).value,
                 name)
  {
    var sizes := [w.levels, w.points];
    ListedDimsExist(dims, sizes, vertConfigName);
    ListedDimsFit(dims, sizes, vertConfigName);
    Hyperslab.ProductOfTwo(w.levels, w.points);
    var listed := ListDims(dims, sizes, vertConfigName).value;
    assert forall i :: 0 <= i < |listed| ==> listed[i] in listed;
  }

  lemma AddingIsReady(fv: FileView, v: VariableView, c: Store.Container, k: string, attrs: map<string, Attribute>)
    requires Ready(fv) && k !in fv.meta.vars && Fits(fv.meta.dims, v, c, k)
    ensures var p := fv.(meta := Meta(fv.meta.dims, fv.meta.vars[k := v], attrs), data := fv.data[k := c]);
            Ready(p) && WrittenVars(p) == WrittenVars(fv)[k := AsWritten(v, c)]
  {
    var p := fv.(meta := Meta(fv.meta.dims, fv.meta.vars[k := v], attrs), data := fv.data[k := c]);
    forall j | j in p.meta.vars ensures Fits(p.meta.dims, p.meta.vars[j], p.data[j], j) {}
    AddedIsWritten(fv, p, v, c, k);
  }

  lemma AddedIsWritten(fv: FileView, p: FileView, v: VariableView, c: Store.Container, k: string)
    requires Ready(fv) && Ready(p) && p.meta.vars == fv.meta.vars[k := v] && p.data == fv.data[k := c]
    ensures WrittenVars(p) == WrittenVars(fv)[k := AsWritten(v, c)]
  {
  }

  ghost function VariableToWrite(dims: map<string, nat>, fields: map<string, FieldView>, md: FieldMetadata,
                                 conv: Convention): VariableView
    requires ValidFields(fields) && md.jediName in fields
    requires ToWrite(fields[md.jediName], WriteName(md, conv), md.noFirstLevel, conv.isLfric).Some?
    requires FieldVariable(dims, FieldToWrite(fields, md, conv), md, WriteName(md, conv),
                           VertConfigName(md, conv)).Some?
  {
    FieldVariable(dims, FieldToWrite(fields, md, conv), md, WriteName(md, conv), VertConfigName(md, conv)).value
  }

  ghost function ContainerToWrite(m: Map, fields: map<string, FieldView>, md: FieldMetadata, conv: Convention)
    : Store.Container
    requires ValidFields(fields) && md.jediName in fields && InRange(m)
    requires ToWrite(fields[md.jediName], WriteName(md, conv), md.noFirstLevel, conv.isLfric).Some?
    requires FieldContainer(m, FieldToWrite(fields, md, conv), WriteName(md, conv)).Some?
  {
    FieldContainer(m, FieldToWrite(fields, md, conv), WriteName(md, conv)).value
  }

  lemma FieldIsWritten(dims: map<string, nat>, m: Map, fields: map<string, FieldView>, md: FieldMetadata,
                       conv: Convention)
    requires ValidFields(fields) && InRange(m) && Writes(dims, m, fields, md, conv)
    ensures FieldVariable(dims, FieldToWrite(fields, md, conv), md, WriteName(md, conv), VertConfigName(md, conv)).Some?
    ensures FieldContainer(m, FieldToWrite(fields, md, conv), WriteName(md, conv)).Some?
    ensures var v, c := VariableToWrite(dims, fields, md, conv), ContainerToWrite(m, fields, md, conv);
            Fits(dims, v, c, WriteName(md, conv)) && AsWritten(v, c) == FieldNcVar(dims, m, fields, md, conv)
  {
    FieldFits(dims, m, FieldToWrite(fields, md, conv), md, WriteName(md, conv), VertConfigName(md, conv));
  }

  lemma PopulatedIs(fv: FileView, fields: map<string, FieldView>, md: FieldMetadata, conv: Convention)
    requires InRange(fv.lfricMap) && ValidFields(fields) && Writes(fv.meta.dims, fv.lfricMap, fields, md, conv)
    requires FieldVariable(fv.meta.dims, FieldToWrite(fields, md, conv), md, WriteName(md, conv),
                           VertConfigName(md, conv)).Some?
    requires FieldContainer(fv.lfricMap, FieldToWrite(fields, md, conv), WriteName(md, conv)).Some?
    requires WriteName(md, conv) !in fv.meta.vars && WriteName(md, conv) !in fv.data
    ensures Populated(fv, fields[md.jediName], md, WriteName(md, conv), VertConfigName(md, conv), conv.isLfric) ==
            Some(fv.(meta := Meta(fv.meta.dims,
                                  fv.meta.vars[WriteName(md, conv) := VariableToWrite(fv.meta.dims, fields, md, conv)],
                                  WithGlobalAttributes(fv.meta.attrs, conv.isLfric)),
                     data := fv.data[WriteName(md, conv) := ContainerToWrite(fv.lfricMap, fields, md, conv)]))
  {
  }

  /** Adding a field keeps the store ready, and adds just its variable to what will be written. */
  lemma PopulatedIsReady(fv: FileView, fields: map<string, FieldView>, md: FieldMetadata, conv: Convention)
    requires Ready(fv) && InRange(fv.lfricMap) && ValidFields(fields)
    requires Writes(fv.meta.dims, fv.lfricMap, fields, md, conv) && WriteName(md, conv) !in fv.meta.vars
    ensures var p :=
              Populated(fv, fields[md.jediName], md, WriteName(md, conv), VertConfigName(md, conv), conv.isLfric);
            && p.Some? && Ready(p.value) && p.value.meta.dims == fv.meta.dims && p.value.lfricMap == fv.lfricMap
            && p.value.meta.vars.Keys == fv.meta.vars.Keys + {WriteName(md, conv)}
            && p.value.meta.attrs == WithGlobalAttributes(fv.meta.attrs, conv.isLfric)
            && p.value.dateTimes == fv.dateTimes
            && WrittenVars(p.value) ==
               WrittenVars(fv)[WriteName(md, conv) := FieldNcVar(fv.meta.dims, fv.lfricMap, fields, md, conv)]
  {
    FieldIsWritten(fv.meta.dims, fv.lfricMap, fields, md, conv);
    PopulatedIs(fv, fields, md, conv);
    AddingIsReady(fv, VariableToWrite(fv.meta.dims, fields, md, conv), ContainerToWrite(fv.lfricMap, fields, md, conv),
                  WriteName(md, conv), WithGlobalAttributes(fv.meta.attrs, conv.isLfric));
  }

  /** The file after a round: what it had, what the store held, and the field. */
  lemma StepWrites(st: RunState, fields: map<string, FieldView>, md: FieldMetadata, conv: Convention)
    requires Ready(st.store) && InRange(st.store.lfricMap) && ValidFields(fields)
    requires Writes(st.store.meta.dims, st.store.lfricMap, fields, md, conv)
    requires Within(st.file.dims, st.store.meta.dims) && st.store.meta.vars.Keys !! st.file.vars.Keys
    requires WriteName(md, conv) !in st.store.meta.vars && WriteName(md, conv) !in st.file.vars
    ensures Stepped(st, fields, md, conv) == Some(RunState(st.store.Cleared(),
              NcFile(st.store.meta.dims,
                     st.file.vars + WrittenVars(st.store)[WriteName(md, conv) :=
                       FieldNcVar(st.store.meta.dims, st.store.lfricMap, fields, md, conv)],
                     WriteAttrs(WithGlobalAttributes(st.store.meta.attrs, conv.isLfric)) + st.file.attrs)))
  {
    PopulatedIsReady(st.store, fields, md, conv);
    var p :=
      Populated(st.store, fields[md.jediName], md, WriteName(md, conv), VertConfigName(md, conv), conv.isLfric).value;
    ReadyStoreIsWritten(p, st.file);
  }

  // ---------------------------------------------------------------------------
  // The whole run
  // ---------------------------------------------------------------------------

  ghost predicate DistinctNames(mds: seq<FieldMetadata>, conv: Convention) {
    forall i, j :: 0 <= i < j < |mds| ==> WriteName(mds[i], conv) != WriteName(mds[j], conv)
  }

  /** Each field can be written under a name of its own. */
  ghost predicate FieldsWritable(store: FileView, fields: map<string, FieldView>, mds: seq<FieldMetadata>,
                                 conv: Convention)
    requires ValidFields(fields)
  {
    && DistinctNames(mds, conv)
    && forall i :: 0 <= i < |mds| ==>
         WriteName(mds[i], conv) !in store.meta.vars && Writes(store.meta.dims, store.lfricMap, fields, mds[i], conv)
  }

  /** A run can start: the store is ready, and the fields can be written. */
  ghost predicate CanRun(store: FileView, fields: map<string, FieldView>, mds: seq<FieldMetadata>, conv: Convention) {
    && Ready(store) && InRange(store.lfricMap) && ValidFields(fields) && store.meta.attrs == map[]
    && FieldsWritable(store, fields, mds, conv)
  }

  /** The entries of a list, by name. */
  function ByName<V>(entries: seq<(string, V)>): map<string, V> {
    if entries == [] then map[]
    else
      var n := |entries| - 1;
      ByName(entries[..n])[entries[n].0 := entries[n].1]
  }

  lemma {:induction false} ByNameHas<V>(entries: seq<(string, V)>)
    requires forall i, j :: 0 <= i < j < |entries| ==> entries[i].0 != entries[j].0
    ensures forall i :: 0 <= i < |entries| ==>
              entries[i].0 in ByName(entries) && ByName(entries)[entries[i].0] == entries[i].1
    ensures forall k :: k in ByName(entries) ==> exists i :: 0 <= i < |entries| && entries[i].0 == k
  {
    if entries != [] {
      var n := |entries| - 1;
      ByNameHas(entries[..n]);
      assert forall i :: 0 <= i < n ==> entries[..n][i] == entries[i];
    }
  }

  /** The fields' names and variables in the file. */
  ghost function FieldEntries(store: FileView, fields: map<string, FieldView>, mds: seq<FieldMetadata>,
                              conv: Convention)
    : (r: seq<(string, NcVar)>)
    requires CanRun(store, fields, mds, conv)
    ensures |r| == |mds|
    ensures forall i :: 0 <= i < |mds| ==>
              r[i] == (WriteName(mds[i], conv), FieldNcVar(store.meta.dims, store.lfricMap, fields, mds[i], conv))
  {
    seq(|mds|, i requires 0 <= i < |mds| =>
      (WriteName(mds[i], conv), FieldNcVar(store.meta.dims, store.lfricMap, fields, mds[i], conv)))
  }

  function RunAttrs(conv: Convention): map<string, NcAttr> { WriteAttrs(WithGlobalAttributes(map[], conv.isLfric)) }

  /** The file after a run: what the store held at the start, and each field. */
  ghost function RunFile(store: FileView, fields: map<string, FieldView>, mds: seq<FieldMetadata>, conv: Convention)
    : NcFile
    requires CanRun(store, fields, mds, conv)
  {
    if mds == [] then EMPTY_FILE
    else
      NcFile(store.meta.dims, WrittenVars(store) + ByName(FieldEntries(store, fields, mds, conv)), RunAttrs(conv))
  }

  lemma RunCanBeCut(store: FileView, fields: map<string, FieldView>, mds: seq<FieldMetadata>, conv: Convention, n: nat)
    requires CanRun(store, fields, mds, conv) && n <= |mds|
    ensures CanRun(store, fields, mds[..n], conv)
    ensures FieldEntries(store, fields, mds[..n], conv) == FieldEntries(store, fields, mds, conv)[..n]
  {
  }

  ghost predicate CanStep(store: FileView, fields: map<string, FieldView>, md: FieldMetadata, conv: Convention) {
    && Ready(store) && InRange(store.lfricMap) && ValidFields(fields) && store.meta.attrs == map[]
    && Writes(store.meta.dims, store.lfricMap, fields, md, conv)
  }

  /** The first round writes what the store holds and the field. */
  lemma FirstStep(store: FileView, fields: map<string, FieldView>, md: FieldMetadata, conv: Convention)
    requires CanStep(store, fields, md, conv) && WriteName(md, conv) !in store.meta.vars
    ensures Stepped(RunState(store, EMPTY_FILE), fields, md, conv) ==
            Some(RunState(store.Cleared(),
              NcFile(store.meta.dims,
                     WrittenVars(store)[WriteName(md, conv) :=
                       FieldNcVar(store.meta.dims, store.lfricMap, fields, md, conv)],
                     RunAttrs(conv))))
  {
    StepWrites(RunState(store, EMPTY_FILE), fields, md, conv);
    var v := FieldNcVar(store.meta.dims, store.lfricMap, fields, md, conv);
    AddToNothing(WrittenVars(store)[WriteName(md, conv) := v]);
    AddToNothing(RunAttrs(conv));
  }

  /** Every later round adds just its field. */
  lemma LaterStep(store: FileView, fields: map<string, FieldView>, md: FieldMetadata, conv: Convention,
                  vars: map<string, NcVar>)
    requires CanStep(store, fields, md, conv) && WriteName(md, conv) !in vars
    ensures Stepped(RunState(store.Cleared(), NcFile(store.meta.dims, vars, RunAttrs(conv))), fields, md, conv) ==
            Some(RunState(store.Cleared(),
              NcFile(store.meta.dims,
                     vars[WriteName(md, conv) := FieldNcVar(store.meta.dims, store.lfricMap, fields, md, conv)],
                     RunAttrs(conv))))
  {
    var v := FieldNcVar(store.meta.dims, store.lfricMap, fields, md, conv);
    StepWrites(RunState(store.Cleared(), NcFile(store.meta.dims, vars, RunAttrs(conv))), fields, md, conv);
    assert WrittenVars(store.Cleared()) == map[];
    AddOne(vars, WriteName(md, conv), v);
    AddToNothing(RunAttrs(conv));
  }

  lemma NextNameIsNew<V>(entries: seq<(string, V)>, n: nat)
    requires n < |entries| && forall i, j :: 0 <= i < j < |entries| ==> entries[i].0 != entries[j].0
    ensures entries[n].0 !in ByName(entries[..n])
  {
    ByNameHas(entries[..n]);
  }

  /** The file of a run from that of the same run without its last field. */
  lemma RunFileNext(store: FileView, fields: map<string, FieldView>, mds: seq<FieldMetadata>, conv: Convention)
    requires CanRun(store, fields, mds, conv) && mds != []
    ensures var n := |mds| - 1;
            var before := WrittenVars(store) + ByName(FieldEntries(store, fields, mds, conv)[..n]);
            && WriteName(mds[n], conv) !in before
            && RunFile(store, fields, mds, conv) ==
               NcFile(store.meta.dims,
                      before[WriteName(mds[n], conv) :=
                        FieldNcVar(store.meta.dims, store.lfricMap, fields, mds[n], conv)],
                      RunAttrs(conv))
  {
    var n, entries := |mds| - 1, FieldEntries(store, fields, mds, conv);
    NextNameIsNew(entries, n);
    AddedLast(WrittenVars(store), ByName(entries[..n]), entries[n].0, entries[n].1);
  }

  lemma AddedLast<V>(a: map<string, V>, b: map<string, V>, k: string, v: V)
    ensures a + b[k := v] == (a + b)[k := v]
  {
  }

  /** A run that can start writes the whole file: no round fails, each adds its field,
      and none touches what an earlier one wrote. */
  lemma {:induction false} RunWrites(store: FileView, fields: map<string, FieldView>, mds: seq<FieldMetadata>,
                                     conv: Convention)
    requires CanRun(store, fields, mds, conv)
    ensures Run(RunState(store, EMPTY_FILE), fields, mds, conv) ==
            Some(RunState(if mds == [] then store else store.Cleared(), RunFile(store, fields, mds, conv)))
    decreases |mds|
  {
    if mds != [] {
      var n := |mds| - 1;
      RunCanBeCut(store, fields, mds, conv, n);
      RunWrites(store, fields, mds[..n], conv);
      RunFileNext(store, fields, mds, conv);
      if n == 0 {
        AddToNothing(WrittenVars(store));
        FirstStep(store, fields, mds[0], conv);
      } else {
        LaterStep(store, fields, mds[n], conv, RunFile(store, fields, mds[..n], conv).vars);
      }
    }
  }

  lemma SumHas<V>(a: map<string, V>, b: map<string, V>)
    requires a.Keys !! b.Keys
    ensures Within(a, a + b) && Within(b, a + b) && (a + b).Keys == a.Keys + b.Keys
  {
  }

  lemma RunNamesAreNew(store: FileView, fields: map<string, FieldView>, mds: seq<FieldMetadata>, conv: Convention)
    requires CanRun(store, fields, mds, conv)
    ensures var added := ByName(FieldEntries(store, fields, mds, conv));
            && store.meta.vars.Keys !! added.Keys
            && (forall i :: 0 <= i < |mds| ==> WriteName(mds[i], conv) in added)
            && (forall i :: 0 <= i < |mds| ==>
                  added[WriteName(mds[i], conv)] == FieldNcVar(store.meta.dims, store.lfricMap, fields, mds[i], conv))
            && (forall k :: k in added ==> exists i :: 0 <= i < |mds| && WriteName(mds[i], conv) == k)
  {
    ByNameHas(FieldEntries(store, fields, mds, conv));
  }

  /** After a run the file has just the variables the store started with and those of
      the fields, each in full. */
  lemma RunFileHas(store: FileView, fields: map<string, FieldView>, mds: seq<FieldMetadata>, conv: Convention)
    requires CanRun(store, fields, mds, conv) && mds != []
    ensures var vars := RunFile(store, fields, mds, conv).vars;
            && (forall k :: k in store.meta.vars ==>
                k in vars && vars[k] == AsWritten(store.meta.vars[k], store.data[k]))
            && (forall i :: 0 <= i < |mds| ==> WriteName(mds[i], conv) in vars)
            && (forall i :: 0 <= i < |mds| ==>
                  vars[WriteName(mds[i], conv)] == FieldNcVar(store.meta.dims, store.lfricMap, fields, mds[i], conv))
            && (forall k :: k in vars ==>
                k in store.meta.vars || exists i :: 0 <= i < |mds| && WriteName(mds[i], conv) == k)
  {
    RunNamesAreNew(store, fields, mds, conv);
    SumHas(WrittenVars(store), ByName(FieldEntries(store, fields, mds, conv)));
  }

  /** The element at level j and point map[i] of each written variable is that of the
      field as it is written, at point i and level j. */
  lemma WrittenElement(store: FileView, fields: map<string, FieldView>, mds: seq<FieldMetadata>, conv: Convention,
                       f: nat, i: nat, j: nat)
    requires CanRun(store, fields, mds, conv) && Permutation(store.lfricMap) && f < |mds|
    requires i < |store.lfricMap| && mds[f].jediName in fields && j < FieldToWrite(fields, mds[f], conv).levels
    ensures WriteName(mds[f], conv) in RunFile(store, fields, mds, conv).vars
    ensures var data, at :=
              RunFile(store, fields, mds, conv).vars[WriteName(mds[f], conv)].data,
              Flat(store.lfricMap[i], j, |store.lfricMap|);
            at < |data| && data[at] == FieldToWrite(fields, mds[f], conv).cells[i][j]
  {
    RunFileHas(store, fields, mds, conv);
    FlatBound(store.lfricMap[i], j, |store.lfricMap|, FieldToWrite(fields, mds[f], conv).levels);
  }

  /** Through the whole run the file only grows: what it holds after i rounds it holds
      unaltered at the end. */
  lemma FileOnlyGrows(store: FileView, fields: map<string, FieldView>, mds: seq<FieldMetadata>, conv: Convention,
                      i: nat)
    requires CanRun(store, fields, mds, conv) && 0 < i <= |mds|
    ensures CanRun(store, fields, mds[..i], conv)
    ensures var early, late := RunFile(store, fields, mds[..i], conv), RunFile(store, fields, mds, conv);
            Within(early.vars, late.vars) && early.dims == late.dims && early.attrs == late.attrs
  {
    RunCanBeCut(store, fields, mds, conv, i);
    RunNamesAreNew(store, fields, mds, conv);
    FirstEntriesStay(FieldEntries(store, fields, mds, conv), i);
    WithinAdded(WrittenVars(store), ByName(FieldEntries(store, fields, mds, conv)[..i]),
                ByName(FieldEntries(store, fields, mds, conv)));
  }

  lemma FirstEntriesStay<V>(entries: seq<(string, V)>, n: nat)
    requires n <= |entries| && forall i, j :: 0 <= i < j < |entries| ==> entries[i].0 != entries[j].0
    ensures Within(ByName(entries[..n]), ByName(entries))
  {
    ByNameHas(entries);
    ByNameHas(entries[..n]);
  }

  lemma WithinAdded<V>(a: map<string, V>, b: map<string, V>, c: map<string, V>)
    requires Within(b, c) && a.Keys !! c.Keys
    ensures Within(a + b, a + c)
  {
  }

  // ---------------------------------------------------------------------------
  // The loop itself
  // ---------------------------------------------------------------------------

  method Flush(file: File, fileData: FileData) returns (ok: bool)
    requires fileData.Valid()
    modifies file, fileData.metadata, fileData.data
    ensures fileData.Valid()
    ensures var s := Flushed(old(fileData.View()), old(file.nc));
            ok == s.Some? && (ok ==> RunState(fileData.View(), file.nc) == s.value)
  {
    ghost var fv := fileData.View();
    ok := WriteStore(file, fileData);
    assert fileData.View() == fv;
    if ok { fileData.ClearData(); }
  }

  ghost function FieldViews(fields: map<string, Field>): (r: map<string, FieldView>)
    reads set k | k in fields :: fields[k].values
    ensures ValidFields(r) && r.Keys == fields.Keys
  {
    map k | k in fields :: fields[k].View()
  }

  method PopulateAndFlush(file: File, fileData: FileData, field: Field, md: FieldMetadata, conv: Convention)
    returns (ok: bool)
    requires fileData.Valid() && InRange(fileData.lfricAtlasMap)
    modifies file, fileData.metadata, fileData.data
    ensures fileData.Valid()
    ensures var s := SteppedWith(RunState(old(fileData.View()), old(file.nc)), old(field.View()), md, conv);
            ok == s.Some? && (ok ==> RunState(fileData.View(), file.nc) == s.value)
  {
    ok := PopulateFileDataWithField(fileData, field, md, WriteName(md, conv), VertConfigName(md, conv), conv.isLfric);
    if ok { ok := Flush(file, fileData); }
  }

  method WriteField(file: File, fileData: FileData, fields: map<string, Field>, md: FieldMetadata, conv: Convention)
    returns (ok: bool)
    requires fileData.Valid() && InRange(fileData.lfricAtlasMap)
    modifies file, fileData.metadata, fileData.data
    ensures fileData.Valid()
    ensures var s := Stepped(RunState(old(fileData.View()), old(file.nc)), old(FieldViews(fields)), md, conv);
            ok == s.Some? && (ok ==> RunState(fileData.View(), file.nc) == s.value)
  {
    if md.jediName !in fields { return false; }
    var field := fields[md.jediName];
    if !conv.isLfric && field.name != md.jediName { return false; }
    ok := PopulateAndFlush(file, fileData, field, md, conv);
  }

  method WriteFields(file: File, fileData: FileData, fields: map<string, Field>, mds: seq<FieldMetadata>,
                     conv: Convention)
    returns (ok: bool)
    requires fileData.Valid() && InRange(fileData.lfricAtlasMap)
    modifies file, fileData.metadata, fileData.data
    ensures fileData.Valid()
    ensures var s := Run(RunState(old(fileData.View()), old(file.nc)), old(FieldViews(fields)), mds, conv);
            ok == s.Some? && (ok ==> RunState(fileData.View(), file.nc) == s.value)
  {
    ghost var start, views := RunState(fileData.View(), file.nc), FieldViews(fields);
    for i := 0 to |mds|
      invariant fileData.Valid() && Run(start, views, mds[..i], conv) == Some(RunState(fileData.View(), file.nc))
      invariant FieldViews(fields) == views
    {
      assert mds[..i + 1][..i] == mds[..i];
      ok := WriteField(file, fileData, fields, mds[i], conv);
      assert FieldViews(fields) == views;
      if !ok {
        RunFails(start, views, mds, conv, i + 1);
        return;
      }
    }
    assert mds[..|mds|] == mds;
    ok := true;
  }

  lemma {:induction false} RunFails(st: RunState, fields: map<string, FieldView>, mds: seq<FieldMetadata>,
                                    conv: Convention, i: nat)
    requires InRange(st.store.lfricMap) && ValidFields(fields) && i <= |mds| && Run(st, fields, mds[..i], conv).None?
    ensures Run(st, fields, mds, conv).None?
    decreases |mds|
  {
    if i < |mds| {
      assert mds[..|mds| - 1][..i] == mds[..i];
      RunFails(st, fields, mds[..|mds| - 1], conv, i);
    } else {
      assert mds[..i] == mds;
    }
  }
}
