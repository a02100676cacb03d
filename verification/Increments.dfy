/** Increment files name their variables by other names than state files, and the reader
    uses the names of state files. When fields come back, exactly (writeIncrements and
    readIncrements of src/monio/Monio.cc). */
module Increments {
  import opened Options
  import opened Store
  import opened NetCdf
  import opened DataOrder
  import opened FieldWriter
  import opened WriteRun
  import opened NearestMap
  import opened FileInit
  import opened FieldReader
  import opened RoundTrip

  // ---------------------------------------------------------------------------
  // Reading by name
  // ---------------------------------------------------------------------------

  lemma MissingIsNotRead(g: NcFile, tree: Tree, atlas: seq<Point>, md: FieldMetadata, isLfric: bool, target: FieldView)
    requires g.Valid() && Readable(g) && Opens(g, atlas) && target.Valid() && ReadName(md, isLfric) !in g.vars
    ensures FieldOf(g, Opened(g, tree, atlas), md, isLfric, target) == None
  {
    OpenedIsLoaded(g, tree, atlas);
    WithDataIff(g, Opened(g, tree, atlas), {ReadName(md, isLfric)});
  }

  lemma OpenedReadsByName(g: NcFile, tree: Tree, atlas: seq<Point>, md: FieldMetadata, isLfric: bool, target: FieldView)
    requires g.Valid() && Readable(g) && Opens(g, atlas) && target.Valid()
    ensures var k := ReadName(md, isLfric);
            FieldOf(g, Opened(g, tree, atlas), md, isLfric, target) ==
            if k !in g.vars then None
            else ReadInto(ContainerOf(g.vars[k], k), MapFrom(g, tree, atlas), md.noFirstLevel, isLfric, target)
  {
    if ReadName(md, isLfric) in g.vars {
      PresentIsRead(g, tree, atlas, md, isLfric, target);
    } else {
      MissingIsNotRead(g, tree, atlas, md, isLfric, target);
    }
  }

  /** What is read from a written file is what stands in it under the name for reading. */
  lemma WrittenReadsByName(f: NcFile, tree: Tree, atlas: seq<Point>, fields: map<string, FieldView>,
                           mds: seq<FieldMetadata>, conv: Convention, md: FieldMetadata, target: FieldView)
    requires CanWrite(f, tree, atlas, fields, mds, conv) && target.Valid()
    ensures FileFor(f, tree, atlas, fields, mds, conv).DimsKnown()
    ensures var g, k := FileFor(f, tree, atlas, fields, mds, conv), ReadName(md, conv.isLfric);
            FieldFrom(g, tree, atlas, md, target) ==
            if k !in g.vars then None
            else ReadInto(ContainerOf(g.vars[k], k), MapFrom(f, tree, atlas), md.noFirstLevel, conv.isLfric, target)
  {
    WrittenFileOpens(f, tree, atlas, fields, mds, conv);
    OpenedReadsByName(FileFor(f, tree, atlas, fields, mds, conv), tree, atlas, md, conv.isLfric, target);
  }

  // ---------------------------------------------------------------------------
  // Fields of the same shapes
  // ---------------------------------------------------------------------------

  /** The same fields but for their values. */
  ghost predicate Alike(a: map<string, FieldView>, b: map<string, FieldView>) {
    a.Keys == b.Keys && forall k :: k in b ==> a[k].name == b[k].name && SameShape(a[k], b[k])
  }

  lemma ToWriteAlike(x: FieldView, y: FieldView, writeName: string, noFirstLevel: bool, isLfric: bool)
    requires x.name == y.name && SameShape(x, y) && ToWrite(y, writeName, noFirstLevel, isLfric).Some?
    ensures ToWrite(x, writeName, noFirstLevel, isLfric).Some?
    ensures ToWrite(x, writeName, noFirstLevel, isLfric).value.levels ==
              ToWrite(y, writeName, noFirstLevel, isLfric).value.levels
  {
  }

  lemma WritesAlike(dims: map<string, nat>, m: Map, a: map<string, FieldView>, b: map<string, FieldView>,
                    md: FieldMetadata, conv: Convention)
    requires Alike(a, b) && ValidFields(b) && Writes(dims, m, b, md, conv)
    ensures ValidFields(a) && Writes(dims, m, a, md, conv)
  {
    ToWriteAlike(a[md.jediName], b[md.jediName], WriteName(md, conv), md.noFirstLevel, conv.isLfric);
  }

  /** What can be written does not depend on values. */
  lemma CanWriteAlike(f: NcFile, tree: Tree, atlas: seq<Point>, a: map<string, FieldView>, b: map<string, FieldView>,
                      mds: seq<FieldMetadata>, conv: Convention)
    requires CanWrite(f, tree, atlas, b, mds, conv) && Alike(a, b)
    ensures CanWrite(f, tree, atlas, a, mds, conv)
  {
    var store := StoreFor(f, tree, atlas, conv.isLfric);
    forall i | 0 <= i < |mds| ensures ValidFields(a) && Writes(store.meta.dims, store.lfricMap, a, mds[i], conv) {
      WritesAlike(store.meta.dims, store.lfricMap, a, b, mds[i], conv);
    }
  }

  // ---------------------------------------------------------------------------
  // What the file has under a name
  // ---------------------------------------------------------------------------

  /** Variable k of the file of a run comes from the store or from field j of the list. */
  ghost predicate FromField(mds: seq<FieldMetadata>, conv: Convention, k: string, j: int) {
    0 <= j < |mds| && WriteName(mds[j], conv) == k
  }

  lemma KeptVariable(store: FileView, fields: map<string, FieldView>, mds: seq<FieldMetadata>, conv: Convention,
                     k: string)
    requires CanRun(store, fields, mds, conv) && mds != [] && k in store.meta.vars
    ensures var vars := RunFile(store, fields, mds, conv).vars;
            k in vars && vars[k] == AsWritten(store.meta.vars[k], store.data[k])
  {
    RunFileHas(store, fields, mds, conv);
  }

  lemma VariableOfField(store: FileView, fields: map<string, FieldView>, mds: seq<FieldMetadata>, conv: Convention,
                        j: nat)
    requires CanRun(store, fields, mds, conv) && j < |mds|
    ensures var vars := RunFile(store, fields, mds, conv).vars;
            WriteName(mds[j], conv) in vars &&
            vars[WriteName(mds[j], conv)] == FieldNcVar(store.meta.dims, store.lfricMap, fields, mds[j], conv)
  {
    RunFileHas(store, fields, mds, conv);
  }

  lemma WhereFrom(store: FileView, fields: map<string, FieldView>, mds: seq<FieldMetadata>, conv: Convention, k: string)
    requires CanRun(store, fields, mds, conv) && mds != [] && k in RunFile(store, fields, mds, conv).vars
    ensures k in store.meta.vars || exists j :: FromField(mds, conv, k, j)
  {
    RunFileHas(store, fields, mds, conv);
    if k !in store.meta.vars {
      var j :| 0 <= j < |mds| && WriteName(mds[j], conv) == k;
      assert FromField(mds, conv, k, j);
    }
  }

  /** A list that names each field once. */
  ghost predicate EachFieldOnce(mds: seq<FieldMetadata>) {
    forall i, j :: 0 <= i < j < |mds| ==> mds[i].jediName != mds[j].jediName
  }

  /** But for this field all values are the same. */
  ghost predicate AlikeBut(a: map<string, FieldView>, b: map<string, FieldView>, name: string) {
    Alike(a, b) && forall k :: k in b && k != name ==> a[k] == b[k]
  }

  lemma SameFieldVariable(dims: map<string, nat>, m: Map, a: map<string, FieldView>, b: map<string, FieldView>,
                          md: FieldMetadata, conv: Convention)
    requires ValidFields(a) && ValidFields(b) && InRange(m) && Writes(dims, m, a, md, conv)
    requires Writes(dims, m, b, md, conv)
    requires a[md.jediName] == b[md.jediName]
    ensures FieldNcVar(dims, m, a, md, conv) == FieldNcVar(dims, m, b, md, conv)
  {
  }

  /** The values of a field touch no variable of the file but its own. */
  lemma OtherVariablesSame(store: FileView, a: map<string, FieldView>, b: map<string, FieldView>,
                           mds: seq<FieldMetadata>, conv: Convention, i: nat, k: string)
    requires CanRun(store, a, mds, conv) && CanRun(store, b, mds, conv) && i < |mds| && EachFieldOnce(mds)
    requires AlikeBut(a, b, mds[i].jediName) && k != WriteName(mds[i], conv) && k in RunFile(store, a, mds, conv).vars
    ensures k in RunFile(store, b, mds, conv).vars
    ensures RunFile(store, a, mds, conv).vars[k] == RunFile(store, b, mds, conv).vars[k]
  {
    WhereFrom(store, a, mds, conv, k);
    if k in store.meta.vars {
      KeptVariable(store, a, mds, conv, k);
      KeptVariable(store, b, mds, conv, k);
    } else {
      var j :| FromField(mds, conv, k, j);
      OtherFieldSame(store, a, b, mds, conv, i, j);
    }
  }

  lemma OtherFieldSame(store: FileView, a: map<string, FieldView>, b: map<string, FieldView>, mds: seq<FieldMetadata>,
                       conv: Convention, i: nat, j: nat)
    requires CanRun(store, a, mds, conv) && CanRun(store, b, mds, conv) && i < |mds| && j < |mds| && i != j
    requires EachFieldOnce(mds)
    requires AlikeBut(a, b, mds[i].jediName)
    ensures var k, va, vb :=
              WriteName(mds[j], conv), RunFile(store, a, mds, conv).vars, RunFile(store, b, mds, conv).vars;
            k in va && k in vb && va[k] == vb[k]
  {
    assert mds[j].jediName != mds[i].jediName;
    VariableOfField(store, a, mds, conv, j);
    VariableOfField(store, b, mds, conv, j);
    SameFieldVariable(store.meta.dims, store.lfricMap, a, b, mds[j], conv);
  }

  // ---------------------------------------------------------------------------
  // Which entries return
  // ---------------------------------------------------------------------------

  /** The file of a run will have a variable of that name and type. */
  ghost predicate Holds(store: FileView, fields: map<string, FieldView>, mds: seq<FieldMetadata>, conv: Convention,
                        k: string, typ: DataType)
  {
    || (k in store.meta.vars && store.meta.vars[k].typ == typ)
    || exists j :: FromField(mds, conv, k, j) && mds[j].jediName in fields && fields[mds[j].jediName].typ == typ
  }

  lemma FieldVariableType(dims: map<string, nat>, m: Map, fields: map<string, FieldView>, md: FieldMetadata,
                          conv: Convention)
    requires ValidFields(fields) && InRange(m) && Writes(dims, m, fields, md, conv)
    ensures FieldNcVar(dims, m, fields, md, conv).typ == WriteType(fields[md.jediName].typ)
  {
  }

  lemma TypesDiffer(a: DataType, b: DataType)
    ensures WriteType(a) == WriteType(b) <==> a == b
  {
  }

  lemma HeldIsThere(store: FileView, fields: map<string, FieldView>, mds: seq<FieldMetadata>, conv: Convention,
                    k: string, typ: DataType)
    requires CanRun(store, fields, mds, conv) && mds != [] && Holds(store, fields, mds, conv, k, typ)
    ensures var vars := RunFile(store, fields, mds, conv).vars; k in vars && vars[k].typ == WriteType(typ)
  {
    if k in store.meta.vars && store.meta.vars[k].typ == typ {
      KeptVariable(store, fields, mds, conv, k);
    } else {
      var j :| FromField(mds, conv, k, j) && mds[j].jediName in fields && fields[mds[j].jediName].typ == typ;
      VariableOfField(store, fields, mds, conv, j);
      FieldVariableType(store.meta.dims, store.lfricMap, fields, mds[j], conv);
    }
  }

  lemma ThereIsHeld(store: FileView, fields: map<string, FieldView>, mds: seq<FieldMetadata>, conv: Convention,
                    k: string, typ: DataType)
    requires CanRun(store, fields, mds, conv) && mds != []
    requires var vars := RunFile(store, fields, mds, conv).vars; k in vars && vars[k].typ == WriteType(typ)
    ensures Holds(store, fields, mds, conv, k, typ)
  {
    WhereFrom(store, fields, mds, conv, k);
    if k in store.meta.vars {
      KeptVariable(store, fields, mds, conv, k);
      TypesDiffer(store.meta.vars[k].typ, typ);
    } else {
      var j :| FromField(mds, conv, k, j);
      VariableOfField(store, fields, mds, conv, j);
      FieldVariableType(store.meta.dims, store.lfricMap, fields, mds[j], conv);
      TypesDiffer(fields[mds[j].jediName].typ, typ);
    }
  }

  lemma HoldsIff(store: FileView, fields: map<string, FieldView>, mds: seq<FieldMetadata>, conv: Convention, k: string,
                 typ: DataType)
    requires CanRun(store, fields, mds, conv) && mds != []
    ensures var vars := RunFile(store, fields, mds, conv).vars;
            k in vars && vars[k].typ == WriteType(typ) <==> Holds(store, fields, mds, conv, k, typ)
  {
    var vars := RunFile(store, fields, mds, conv).vars;
    if Holds(store, fields, mds, conv, k, typ) { HeldIsThere(store, fields, mds, conv, k, typ); }
    if k in vars && vars[k].typ == WriteType(typ) { ThereIsHeld(store, fields, mds, conv, k, typ); }
  }

  predicate IsEmpty(field: FieldView) { field.points == 0 || field.levels == 0 }

  /** A field with values returns if it is read under the name it was written under and is
      configured as it should be; one without returns if there is something to read. */
  ghost predicate EntryReturns(store: FileView, fields: map<string, FieldView>, mds: seq<FieldMetadata>,
                               conv: Convention, i: nat)
    requires i < |mds| && mds[i].jediName in fields
  {
    var md, field := mds[i], fields[mds[i].jediName];
    if IsEmpty(field) then Holds(store, fields, mds, conv, ReadName(md, conv.isLfric), field.typ)
    else ReadName(md, conv.isLfric) == WriteName(md, conv) && !Misconfigured(md.noFirstLevel, field.levels)
  }

  lemma EmptyHasOneValue(a: FieldView, b: FieldView)
    requires SameShape(a, b) && IsEmpty(a)
    ensures a.cells == b.cells
  {
    forall i | 0 <= i < |a.cells| ensures a.cells[i] == b.cells[i] {}
  }

  lemma EmptyReads(c: Store.Container, m: Map, noFirstLevel: bool, isLfric: bool, target: FieldView, field: FieldView)
    requires SameShape(target, field) && IsEmpty(target) && |m| == target.points && c.typ == target.typ
    ensures ReadInto(c, m, noFirstLevel, isLfric, target) == Some(ComeBack(target, field, noFirstLevel))
  {
    EmptyHasOneValue(target, field);
    if !Misconfigured(noFirstLevel, target.levels) {
      var r := ReadInto(c, m, noFirstLevel, isLfric, target).value;
      EmptyHasOneValue(r, field);
    }
  }

  lemma PointsAreOfMap(f: NcFile, tree: Tree, atlas: seq<Point>, fields: map<string, FieldView>,
                       mds: seq<FieldMetadata>, conv: Convention, i: nat)
    requires CanWrite(f, tree, atlas, fields, mds, conv) && i < |mds|
    ensures mds[i].jediName in fields && fields[mds[i].jediName].points == |MapFrom(f, tree, atlas)|
  {
    FieldInFile(f, tree, atlas, fields, mds, conv, i);
  }

  lemma FileHolds(f: NcFile, tree: Tree, atlas: seq<Point>, fields: map<string, FieldView>, mds: seq<FieldMetadata>,
                  conv: Convention, k: string, typ: DataType)
    requires CanWrite(f, tree, atlas, fields, mds, conv)
    ensures var vars := FileFor(f, tree, atlas, fields, mds, conv).vars;
            k in vars && vars[k].typ == WriteType(typ) <==>
              Holds(StoreFor(f, tree, atlas, conv.isLfric), fields, mds, conv, k, typ)
  {
    CanWriteRuns(f, tree, atlas, fields, mds, conv);
    HoldsIff(StoreFor(f, tree, atlas, conv.isLfric), fields, mds, conv, k, typ);
  }

  lemma EmptyReadsBack(f: NcFile, tree: Tree, atlas: seq<Point>, fields: map<string, FieldView>,
                       mds: seq<FieldMetadata>, conv: Convention, i: nat, target: FieldView)
    requires CanWrite(f, tree, atlas, fields, mds, conv) && i < |mds| && mds[i].jediName in fields
    requires SameShape(target, fields[mds[i].jediName]) && IsEmpty(target)
    requires Holds(StoreFor(f, tree, atlas, conv.isLfric), fields, mds, conv, ReadName(mds[i], conv.isLfric),
                   target.typ)
    ensures FileFor(f, tree, atlas, fields, mds, conv).DimsKnown()
    ensures FieldFrom(FileFor(f, tree, atlas, fields, mds, conv), tree, atlas, mds[i], target) ==
            Some(ComeBack(target, fields[mds[i].jediName], mds[i].noFirstLevel))
  {
    var k, vars := ReadName(mds[i], conv.isLfric), FileFor(f, tree, atlas, fields, mds, conv).vars;
    WrittenReadsByName(f, tree, atlas, fields, mds, conv, mds[i], target);
    FileHolds(f, tree, atlas, fields, mds, conv, k, target.typ);
    PointsAreOfMap(f, tree, atlas, fields, mds, conv, i);
    TypesAgree(target.typ, vars[k].typ);
    EmptyReads(ContainerOf(vars[k], k), MapFrom(f, tree, atlas), mds[i].noFirstLevel, conv.isLfric, target,
               fields[mds[i].jediName]);
  }

  lemma EntryReadsBack(f: NcFile, tree: Tree, atlas: seq<Point>, fields: map<string, FieldView>,
                       mds: seq<FieldMetadata>, conv: Convention, i: nat, target: FieldView)
    requires CanWrite(f, tree, atlas, fields, mds, conv) && i < |mds| && mds[i].jediName in fields
    requires EntryReturns(StoreFor(f, tree, atlas, conv.isLfric), fields, mds, conv, i)
    requires SameShape(target, fields[mds[i].jediName])
    ensures FileFor(f, tree, atlas, fields, mds, conv).DimsKnown()
    ensures FieldFrom(FileFor(f, tree, atlas, fields, mds, conv), tree, atlas, mds[i], target) ==
            Some(ComeBack(target, fields[mds[i].jediName], mds[i].noFirstLevel))
  {
    if IsEmpty(target) {
      EmptyReadsBack(f, tree, atlas, fields, mds, conv, i, target);
    } else {
      FieldReadBack(f, tree, atlas, fields, mds, conv, i, target);
    }
  }

  /** Reading the whole list succeeds and leaves every target with the field's values. */
  ghost predicate ReadsValues(read: Reading, targets: map<string, FieldView>, mds: seq<FieldMetadata>,
                              fields: map<string, FieldView>)
  {
    && ReadRun(read, targets, mds).Some?
    && forall i :: 0 <= i < |mds| ==> HasValues(ReadRun(read, targets, mds).value, mds[i].jediName, fields)
  }

  ghost predicate HasValues(r: map<string, FieldView>, name: string, fields: map<string, FieldView>) {
    name in r && name in fields && r[name].cells == fields[name].cells
  }

  lemma BackHasValues(targets: map<string, FieldView>, fields: map<string, FieldView>, mds: seq<FieldMetadata>, i: nat)
    requires SameShapes(targets, fields, mds) && i < |mds|
    requires !IsEmpty(fields[mds[i].jediName]) ==> !Misconfigured(mds[i].noFirstLevel, fields[mds[i].jediName].levels)
    ensures HasValues(AllBack(targets, fields, mds), mds[i].jediName, fields)
  {
    var k := mds[i].jediName;
    if IsEmpty(fields[k]) {
      EmptyHasOneValue(targets[k], fields[k]);
    } else {
      assert Restores(mds, k, fields[k].levels);
    }
  }

  /** Every entry of the list returns. */
  ghost predicate AllReturn(store: FileView, fields: map<string, FieldView>, mds: seq<FieldMetadata>, conv: Convention)
  {
    forall i :: 0 <= i < |mds| ==> mds[i].jediName in fields && EntryReturns(store, fields, mds, conv, i)
  }

  lemma EntriesGiveBack(f: NcFile, tree: Tree, atlas: seq<Point>, fields: map<string, FieldView>,
                        mds: seq<FieldMetadata>, conv: Convention)
    requires CanWrite(f, tree, atlas, fields, mds, conv)
    requires AllReturn(StoreFor(f, tree, atlas, conv.isLfric), fields, mds, conv)
    ensures var g := FileFor(f, tree, atlas, fields, mds, conv);
            g.DimsKnown() && GivesBack(ReadingFrom(g, tree, atlas), fields, mds)
  {
    WrittenFileIsReadable(f, tree, atlas, fields, mds, conv);
    var g := FileFor(f, tree, atlas, fields, mds, conv);
    forall i, t | 0 <= i < |mds| && mds[i].jediName in fields && SameShape(t, fields[mds[i].jediName])
      ensures FieldFrom(g, tree, atlas, mds[i], t) == Some(ComeBack(t, fields[mds[i].jediName], mds[i].noFirstLevel))
    {
      EntryReadsBack(f, tree, atlas, fields, mds, conv, i, t);
    }
  }

  lemma GivenBackIsRead(read: Reading, store: FileView, fields: map<string, FieldView>, mds: seq<FieldMetadata>,
                        conv: Convention, targets: map<string, FieldView>)
    requires GivesBack(read, fields, mds) && AllReturn(store, fields, mds, conv)
    requires ValidFields(targets) && SameShapes(targets, fields, mds)
    ensures ReadsValues(read, targets, mds, fields)
  {
    ReadAllBack(read, fields, mds, targets);
    forall i | 0 <= i < |mds| ensures HasValues(AllBack(targets, fields, mds), mds[i].jediName, fields) {
      BackHasValues(targets, fields, mds, i);
    }
  }

  /** These fields return from the file they are written to. */
  ghost predicate Returns(f: NcFile, tree: Tree, atlas: seq<Point>, fields: map<string, FieldView>,
                          mds: seq<FieldMetadata>, conv: Convention, targets: map<string, FieldView>)
  {
    && CanWrite(f, tree, atlas, fields, mds, conv) && FileFor(f, tree, atlas, fields, mds, conv).DimsKnown()
    && ReadsValues(ReadingFrom(FileFor(f, tree, atlas, fields, mds, conv), tree, atlas), targets, mds, fields)
  }

  /** All fields of these shapes return, into any targets of these shapes. */
  ghost predicate AlwaysReturns(f: NcFile, tree: Tree, atlas: seq<Point>, fields: map<string, FieldView>,
                                mds: seq<FieldMetadata>, conv: Convention)
  {
    forall other, targets :: Alike(other, fields) && ValidFields(targets) && SameShapes(targets, other, mds) ==>
      Returns(f, tree, atlas, other, mds, conv, targets)
  }

  lemma EntriesAlike(store: FileView, a: map<string, FieldView>, b: map<string, FieldView>, mds: seq<FieldMetadata>,
                     conv: Convention)
    requires Alike(a, b) && AllReturn(store, b, mds, conv)
    ensures AllReturn(store, a, mds, conv)
  {
    forall i | 0 <= i < |mds| ensures mds[i].jediName in a && EntryReturns(store, a, mds, conv, i) {
      if IsEmpty(b[mds[i].jediName]) {
        HoldsAlike(store, a, b, mds, conv, ReadName(mds[i], conv.isLfric), b[mds[i].jediName].typ);
      }
    }
  }

  lemma HoldsAlike(store: FileView, a: map<string, FieldView>, b: map<string, FieldView>, mds: seq<FieldMetadata>,
                   conv: Convention, k: string, typ: DataType)
    requires Alike(a, b) && Holds(store, b, mds, conv, k, typ)
    ensures Holds(store, a, mds, conv, k, typ)
  {
    if j :| FromField(mds, conv, k, j) && mds[j].jediName in b && b[mds[j].jediName].typ == typ {
      assert a[mds[j].jediName].typ == typ;
    }
  }

  lemma EntriesReturn(f: NcFile, tree: Tree, atlas: seq<Point>, fields: map<string, FieldView>, mds: seq<FieldMetadata>,
                      conv: Convention, targets: map<string, FieldView>)
    requires CanWrite(f, tree, atlas, fields, mds, conv)
    requires AllReturn(StoreFor(f, tree, atlas, conv.isLfric), fields, mds, conv)
    requires ValidFields(targets) && SameShapes(targets, fields, mds)
    ensures Returns(f, tree, atlas, fields, mds, conv, targets)
  {
    EntriesGiveBack(f, tree, atlas, fields, mds, conv);
    GivenBackIsRead(ReadingFrom(FileFor(f, tree, atlas, fields, mds, conv), tree, atlas),
                    StoreFor(f, tree, atlas, conv.isLfric), fields, mds, conv, targets);
  }

  // ---------------------------------------------------------------------------
  // No others return
  // ---------------------------------------------------------------------------

  /** What a run of reads did to one target: nothing, or just its own entry. */
  ghost predicate ReadsEntries(read: Reading, targets: map<string, FieldView>, mds: seq<FieldMetadata>,
                               r: map<string, FieldView>)
  {
    && (forall i :: 0 <= i < |mds| ==> EntryWasRead(read, targets, mds[i], r))
    && (forall k :: k in targets && (forall i :: 0 <= i < |mds| ==> mds[i].jediName != k) ==>
        k in r && r[k] == targets[k])
  }

  ghost predicate EntryWasRead(read: Reading, targets: map<string, FieldView>, md: FieldMetadata,
                               r: map<string, FieldView>)
  {
    md.jediName in targets && md.jediName in r && read(md, targets[md.jediName]) == Some(r[md.jediName])
  }

  lemma {:induction false} RunReadsEntries(read: Reading, targets: map<string, FieldView>, mds: seq<FieldMetadata>)
    requires EachFieldOnce(mds) && ReadRun(read, targets, mds).Some?
    ensures ReadsEntries(read, targets, mds, ReadRun(read, targets, mds).value)
    ensures ReadRun(read, targets, mds).value.Keys == targets.Keys
  {
    if mds != [] {
      var n := |mds| - 1;
      RunReadsEntries(read, targets, mds[..n]);
      StepReadsEntry(read, targets, mds, ReadRun(read, targets, mds[..n]).value);
    }
  }

  lemma StepReadsEntry(read: Reading, targets: map<string, FieldView>, mds: seq<FieldMetadata>,
                       before: map<string, FieldView>)
    requires mds != [] && EachFieldOnce(mds) && before.Keys == targets.Keys
    requires ReadsEntries(read, targets, mds[..|mds| - 1], before) && ReadStep(read, before, mds[|mds| - 1]).Some?
    ensures ReadsEntries(read, targets, mds, ReadStep(read, before, mds[|mds| - 1]).value)
    ensures ReadStep(read, before, mds[|mds| - 1]).value.Keys == targets.Keys
  {
    var n, r := |mds| - 1, ReadStep(read, before, mds[|mds| - 1]).value;
    forall i | 0 <= i < |mds| ensures EntryWasRead(read, targets, mds[i], r) {
      StepReadsOne(read, targets, mds, before, i);
    }
    forall k | k in targets && (forall i :: 0 <= i < |mds| ==> mds[i].jediName != k)
      ensures k in r && r[k] == targets[k]
    {
      assert mds[n].jediName != k;
      assert forall i :: 0 <= i < n ==> mds[..n][i].jediName == mds[i].jediName;
    }
  }

  lemma StepReadsOne(read: Reading, targets: map<string, FieldView>, mds: seq<FieldMetadata>,
                     before: map<string, FieldView>, i: nat)
    requires i < |mds| && EachFieldOnce(mds) && before.Keys == targets.Keys
    requires ReadsEntries(read, targets, mds[..|mds| - 1], before) && ReadStep(read, before, mds[|mds| - 1]).Some?
    ensures EntryWasRead(read, targets, mds[i], ReadStep(read, before, mds[|mds| - 1]).value)
  {
    var n := |mds| - 1;
    if i < n {
      assert EntryWasRead(read, targets, mds[..n][i], before);
      assert mds[i].jediName != mds[n].jediName;
    } else {
      assert forall j :: 0 <= j < n ==> mds[..n][j].jediName != mds[n].jediName;
    }
  }

  /** The same field with one value changed. */
  ghost function Bumped(field: FieldView): (r: FieldView)
    requires field.Valid() && !IsEmpty(field)
    ensures SameShape(r, field) && r.name == field.name && r.cells != field.cells
  {
    var row := field.cells[0][0 := field.cells[0][0] + 1.0];
    assert row[0] != field.cells[0][0];
    assert field.cells[0 := row][0] != field.cells[0];
    field.(cells := field.cells[0 := row])
  }

  /** What reading entry i gives into a target, in a file from which all values return. */
  lemma ReturnedEntry(f: NcFile, tree: Tree, atlas: seq<Point>, fields: map<string, FieldView>, mds: seq<FieldMetadata>,
                      conv: Convention, targets: map<string, FieldView>, i: nat)
    requires Returns(f, tree, atlas, fields, mds, conv, targets) && ValidFields(targets) && EachFieldOnce(mds)
    requires i < |mds|
    ensures mds[i].jediName in targets && mds[i].jediName in fields
    ensures var r :=
              FieldFrom(FileFor(f, tree, atlas, fields, mds, conv), tree, atlas, mds[i], targets[mds[i].jediName]);
            r.Some? && r.value.cells == fields[mds[i].jediName].cells
  {
    var read := ReadingFrom(FileFor(f, tree, atlas, fields, mds, conv), tree, atlas);
    RunReadsEntries(read, targets, mds);
    var r := ReadRun(read, targets, mds).value;
    assert EntryWasRead(read, targets, mds[i], r) && HasValues(r, mds[i].jediName, fields);
  }

  lemma MustBeHeld(f: NcFile, tree: Tree, atlas: seq<Point>, fields: map<string, FieldView>, mds: seq<FieldMetadata>,
                   conv: Convention, i: nat)
    requires CanWrite(f, tree, atlas, fields, mds, conv) && EachFieldOnce(mds) && i < |mds| && mds[i].jediName in fields
    requires Returns(f, tree, atlas, fields, mds, conv, fields)
    ensures Holds(StoreFor(f, tree, atlas, conv.isLfric), fields, mds, conv, ReadName(mds[i], conv.isLfric),
                  fields[mds[i].jediName].typ)
  {
    var field, k, g :=
      fields[mds[i].jediName], ReadName(mds[i], conv.isLfric), FileFor(f, tree, atlas, fields, mds, conv);
    ReturnedEntry(f, tree, atlas, fields, mds, conv, fields, i);
    WrittenReadsByName(f, tree, atlas, fields, mds, conv, mds[i], field);
    WrittenFileIsReadable(f, tree, atlas, fields, mds, conv);
    TypeIsKept(g, k);
    FileHolds(f, tree, atlas, fields, mds, conv, k, field.typ);
  }

  lemma TypeIsKept(g: NcFile, k: string)
    requires g.DimsKnown() && Readable(g) && k in g.vars
    ensures WriteType(ContainerOf(g.vars[k], k).typ) == g.vars[k].typ
  {
    assert k in ReadableNames(g);
  }

  /** Two fields that differ in one value cannot both return from the same data. */
  lemma BothReturn(f: NcFile, tree: Tree, atlas: seq<Point>, a: map<string, FieldView>, b: map<string, FieldView>,
                   mds: seq<FieldMetadata>, conv: Convention, i: nat)
    requires AlwaysReturns(f, tree, atlas, a, mds, conv) && CanWrite(f, tree, atlas, a, mds, conv)
    requires EachFieldOnce(mds) && i < |mds| && mds[i].jediName in a && Alike(b, a)
    ensures CanWrite(f, tree, atlas, b, mds, conv) && FileFor(f, tree, atlas, b, mds, conv).DimsKnown()
    ensures b[mds[i].jediName].Valid()
    ensures var r := FieldFrom(FileFor(f, tree, atlas, b, mds, conv), tree, atlas, mds[i], a[mds[i].jediName]);
            r.Some? && r.value.cells == b[mds[i].jediName].cells
  {
    TargetsFit(a, b, mds, f, tree, atlas, conv);
    assert Returns(f, tree, atlas, b, mds, conv, a);
    ReturnedEntry(f, tree, atlas, b, mds, conv, a, i);
  }

  lemma TargetsFit(a: map<string, FieldView>, b: map<string, FieldView>, mds: seq<FieldMetadata>, f: NcFile, tree: Tree,
                   atlas: seq<Point>, conv: Convention)
    requires CanWrite(f, tree, atlas, a, mds, conv) && Alike(b, a)
    ensures ValidFields(a) && SameShapes(a, b, mds)
  {
    forall i | 0 <= i < |mds|
      ensures mds[i].jediName in a && mds[i].jediName in b && SameShape(a[mds[i].jediName], b[mds[i].jediName])
    {
      PointsAreOfMap(f, tree, atlas, a, mds, conv, i);
    }
  }

  /** Under another name the same is read for both. */
  lemma NameMustAgree(f: NcFile, tree: Tree, atlas: seq<Point>, a: map<string, FieldView>, b: map<string, FieldView>,
                      mds: seq<FieldMetadata>, conv: Convention, i: nat)
    requires CanWrite(f, tree, atlas, a, mds, conv) && CanWrite(f, tree, atlas, b, mds, conv)
    requires EachFieldOnce(mds) && i < |mds| && mds[i].jediName in a && AlikeBut(a, b, mds[i].jediName)
    requires ReadName(mds[i], conv.isLfric) != WriteName(mds[i], conv)
    requires FileFor(f, tree, atlas, a, mds, conv).DimsKnown() && FileFor(f, tree, atlas, b, mds, conv).DimsKnown()
    requires a[mds[i].jediName].Valid()
    ensures var t, ga, gb :=
              a[mds[i].jediName], FileFor(f, tree, atlas, a, mds, conv), FileFor(f, tree, atlas, b, mds, conv);
            FieldFrom(ga, tree, atlas, mds[i], t).Some? ==>
              FieldFrom(ga, tree, atlas, mds[i], t) == FieldFrom(gb, tree, atlas, mds[i], t)
  {
    var t, k, ga := a[mds[i].jediName], ReadName(mds[i], conv.isLfric), FileFor(f, tree, atlas, a, mds, conv);
    WrittenReadsByName(f, tree, atlas, a, mds, conv, mds[i], t);
    WrittenReadsByName(f, tree, atlas, b, mds, conv, mds[i], t);
    if k in ga.vars { SameInBothFiles(f, tree, atlas, a, b, mds, conv, i, k); }
  }

  lemma SameInBothFiles(f: NcFile, tree: Tree, atlas: seq<Point>, a: map<string, FieldView>, b: map<string, FieldView>,
                        mds: seq<FieldMetadata>, conv: Convention, i: nat, k: string)
    requires CanWrite(f, tree, atlas, a, mds, conv) && CanWrite(f, tree, atlas, b, mds, conv)
    requires EachFieldOnce(mds) && i < |mds| && AlikeBut(a, b, mds[i].jediName) && k != WriteName(mds[i], conv)
    requires k in FileFor(f, tree, atlas, a, mds, conv).vars
    ensures k in FileFor(f, tree, atlas, b, mds, conv).vars
    ensures FileFor(f, tree, atlas, a, mds, conv).vars[k] == FileFor(f, tree, atlas, b, mds, conv).vars[k]
  {
    CanWriteRuns(f, tree, atlas, a, mds, conv);
    CanWriteRuns(f, tree, atlas, b, mds, conv);
    OtherVariablesSame(StoreFor(f, tree, atlas, conv.isLfric), a, b, mds, conv, i, k);
  }

  /** A misconfigured target is left as it is, whatever the file holds. */
  lemma MisconfiguredStays(f: NcFile, tree: Tree, atlas: seq<Point>, fields: map<string, FieldView>,
                           mds: seq<FieldMetadata>, conv: Convention, md: FieldMetadata, target: FieldView)
    requires CanWrite(f, tree, atlas, fields, mds, conv) && target.Valid()
    requires Misconfigured(md.noFirstLevel, target.levels)
    ensures FileFor(f, tree, atlas, fields, mds, conv).DimsKnown()
    ensures var r := FieldFrom(FileFor(f, tree, atlas, fields, mds, conv), tree, atlas, md, target);
            r.Some? ==> r.value == target
  {
    WrittenReadsByName(f, tree, atlas, fields, mds, conv, md, target);
  }

  lemma OneBumped(fields: map<string, FieldView>, name: string)
    requires ValidFields(fields) && name in fields && !IsEmpty(fields[name])
    ensures AlikeBut(fields, fields[name := Bumped(fields[name])], name)
    ensures Alike(fields[name := Bumped(fields[name])], fields)
  {
  }

  lemma OnlyIfEntry(f: NcFile, tree: Tree, atlas: seq<Point>, fields: map<string, FieldView>, mds: seq<FieldMetadata>,
                    conv: Convention, i: nat)
    requires CanWrite(f, tree, atlas, fields, mds, conv) && EachFieldOnce(mds) && i < |mds| && mds[i].jediName in fields
    requires AlwaysReturns(f, tree, atlas, fields, mds, conv) && !IsEmpty(fields[mds[i].jediName])
    ensures ReadName(mds[i], conv.isLfric) == WriteName(mds[i], conv)
    ensures !Misconfigured(mds[i].noFirstLevel, fields[mds[i].jediName].levels)
  {
    var name := mds[i].jediName;
    var bumped := fields[name := Bumped(fields[name])];
    OneBumped(fields, name);
    AlikeItself(fields);
    BothReturn(f, tree, atlas, fields, fields, mds, conv, i);
    BothReturn(f, tree, atlas, fields, bumped, mds, conv, i);
    if Misconfigured(mds[i].noFirstLevel, fields[name].levels) {
      MisconfiguredStays(f, tree, atlas, fields, mds, conv, mds[i], fields[name]);
      MisconfiguredStays(f, tree, atlas, bumped, mds, conv, mds[i], fields[name]);
    }
    if ReadName(mds[i], conv.isLfric) != WriteName(mds[i], conv) {
      NameMustAgree(f, tree, atlas, fields, bumped, mds, conv, i);
    }
  }

  lemma AlikeItself(fields: map<string, FieldView>)
    requires ValidFields(fields)
    ensures Alike(fields, fields)
  {
  }

  lemma ReturnsItself(f: NcFile, tree: Tree, atlas: seq<Point>, fields: map<string, FieldView>, mds: seq<FieldMetadata>,
                      conv: Convention)
    requires CanWrite(f, tree, atlas, fields, mds, conv) && AlwaysReturns(f, tree, atlas, fields, mds, conv)
    ensures Returns(f, tree, atlas, fields, mds, conv, fields)
  {
    AlikeItself(fields);
    TargetsFit(fields, fields, mds, f, tree, atlas, conv);
  }

  lemma OnlyIfEmpty(f: NcFile, tree: Tree, atlas: seq<Point>, fields: map<string, FieldView>, mds: seq<FieldMetadata>,
                    conv: Convention, i: nat)
    requires CanWrite(f, tree, atlas, fields, mds, conv) && EachFieldOnce(mds) && i < |mds| && mds[i].jediName in fields
    requires AlwaysReturns(f, tree, atlas, fields, mds, conv)
    ensures Holds(StoreFor(f, tree, atlas, conv.isLfric), fields, mds, conv, ReadName(mds[i], conv.isLfric),
                  fields[mds[i].jediName].typ)
  {
    ReturnsItself(f, tree, atlas, fields, mds, conv);
    MustBeHeld(f, tree, atlas, fields, mds, conv, i);
  }

  lemma OnlyIfOne(f: NcFile, tree: Tree, atlas: seq<Point>, fields: map<string, FieldView>, mds: seq<FieldMetadata>,
                  conv: Convention, i: nat)
    requires CanWrite(f, tree, atlas, fields, mds, conv) && EachFieldOnce(mds) && i < |mds|
    requires AlwaysReturns(f, tree, atlas, fields, mds, conv)
    ensures mds[i].jediName in fields && EntryReturns(StoreFor(f, tree, atlas, conv.isLfric), fields, mds, conv, i)
  {
    PointsAreOfMap(f, tree, atlas, fields, mds, conv, i);
    if IsEmpty(fields[mds[i].jediName]) {
      OnlyIfEmpty(f, tree, atlas, fields, mds, conv, i);
    } else {
      OnlyIfEntry(f, tree, atlas, fields, mds, conv, i);
    }
  }

  lemma OnlyIf(f: NcFile, tree: Tree, atlas: seq<Point>, fields: map<string, FieldView>, mds: seq<FieldMetadata>,
               conv: Convention)
    requires CanWrite(f, tree, atlas, fields, mds, conv) && EachFieldOnce(mds)
    requires AlwaysReturns(f, tree, atlas, fields, mds, conv)
    ensures AllReturn(StoreFor(f, tree, atlas, conv.isLfric), fields, mds, conv)
  {
    forall i | 0 <= i < |mds|
      ensures mds[i].jediName in fields && EntryReturns(StoreFor(f, tree, atlas, conv.isLfric), fields, mds, conv, i)
    {
      OnlyIfOne(f, tree, atlas, fields, mds, conv, i);
    }
  }

  lemma AllReturnsSuffices(f: NcFile, tree: Tree, atlas: seq<Point>, fields: map<string, FieldView>,
                           mds: seq<FieldMetadata>, conv: Convention)
    requires CanWrite(f, tree, atlas, fields, mds, conv)
    requires AllReturn(StoreFor(f, tree, atlas, conv.isLfric), fields, mds, conv)
    ensures AlwaysReturns(f, tree, atlas, fields, mds, conv)
  {
    var store := StoreFor(f, tree, atlas, conv.isLfric);
    forall other, targets | Alike(other, fields) && ValidFields(targets) && SameShapes(targets, other, mds)
      ensures Returns(f, tree, atlas, other, mds, conv, targets)
    {
      CanWriteAlike(f, tree, atlas, other, fields, mds, conv);
      EntriesAlike(store, other, fields, mds, conv);
      EntriesReturn(f, tree, atlas, other, mds, conv, targets);
    }
  }

  /** Which lists return. In any convention all values of fields of these shapes come back,
      into any targets, if each field that has values is read under the name it was written
      under and is configured as it should be, and for each that has none there is something
      to read; and, for a list that names each field once, only if. */
  lemma FieldsReturnIff(f: NcFile, tree: Tree, atlas: seq<Point>, fields: map<string, FieldView>,
                        mds: seq<FieldMetadata>, conv: Convention)
    requires CanWrite(f, tree, atlas, fields, mds, conv)
    ensures AllReturn(StoreFor(f, tree, atlas, conv.isLfric), fields, mds, conv) ==>
              AlwaysReturns(f, tree, atlas, fields, mds, conv)
    ensures EachFieldOnce(mds) ==>
              (AlwaysReturns(f, tree, atlas, fields, mds, conv) <==>
               AllReturn(StoreFor(f, tree, atlas, conv.isLfric), fields, mds, conv))
  {
    if AllReturn(StoreFor(f, tree, atlas, conv.isLfric), fields, mds, conv) {
      AllReturnsSuffices(f, tree, atlas, fields, mds, conv);
    } else if EachFieldOnce(mds) && AlwaysReturns(f, tree, atlas, fields, mds, conv) {
      OnlyIf(f, tree, atlas, fields, mds, conv);
    }
  }

  /** No field of the list is written under that name. */
  ghost predicate NoneWritten(mds: seq<FieldMetadata>, conv: Convention, k: string)
  {
    forall j :: !FromField(mds, conv, k, j)
  }

  /** A field that is read under a name the written file does not have is not read at all. */
  lemma MissingNameFails(f: NcFile, tree: Tree, atlas: seq<Point>, fields: map<string, FieldView>,
                         mds: seq<FieldMetadata>, conv: Convention, i: nat, target: FieldView)
    requires CanWrite(f, tree, atlas, fields, mds, conv) && i < |mds| && target.Valid()
    requires ReadName(mds[i], conv.isLfric) !in StoreFor(f, tree, atlas, conv.isLfric).meta.vars
    requires NoneWritten(mds, conv, ReadName(mds[i], conv.isLfric))
    ensures FileFor(f, tree, atlas, fields, mds, conv).DimsKnown()
    ensures FieldFrom(FileFor(f, tree, atlas, fields, mds, conv), tree, atlas, mds[i], target) == None
  {
    var k := ReadName(mds[i], conv.isLfric);
    WrittenReadsByName(f, tree, atlas, fields, mds, conv, mds[i], target);
    CanWriteRuns(f, tree, atlas, fields, mds, conv);
    if k in FileFor(f, tree, atlas, fields, mds, conv).vars {
      WhereFrom(StoreFor(f, tree, atlas, conv.isLfric), fields, mds, conv, k);
    }
  }
}
