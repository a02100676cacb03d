/** From data to a field (populateFieldWithFileData and getReadField of
    src/monio/AtlasReader.cc), and the loop that reads one field after another
    (readIncrements of src/monio/Monio.cc). */
module FieldReader {
  import opened Options
  import opened Store
  import opened NetCdf
  import opened Transfer
  import opened DataOrder
  import opened FieldWriter
  import opened FileInit
  import opened NearestMap
  import opened WriteRun
  import opened DateTimes
  import Hyperslab

  // ---------------------------------------------------------------------------
  // One field
  // ---------------------------------------------------------------------------

  /** The cells after reading: rows of the map from the container, the others as before. */
  ghost function Decoded(data: seq<real>, m: Map, levels: nat, skip: nat, before: Cells): (r: Cells)
    requires |m| <= |before| && AllWithin(m, levels, skip, |data|)
    ensures Shaped(before, |before|, levels) ==>
              Shaped(r, |before|, levels) && Decodes(r, before, data, m, levels, skip)
  {
    seq(|before|, i requires 0 <= i < |before| =>
      if i < |m| then seq(levels, j requires 0 <= j < levels => data[Source(m, i, j, skip)]) else before[i])
  }

  lemma DecodesIs(cells: Cells, before: Cells, data: seq<real>, m: Map, levels: nat, skip: nat)
    requires |m| <= |before| && AllWithin(m, levels, skip, |data|) && Decodes(cells, before, data, m, levels, skip)
    ensures cells == Decoded(data, m, levels, skip, before)
  {
    var r := Decoded(data, m, levels, skip, before);
    forall i | 0 <= i < |before| ensures cells[i] == r[i] {}
  }

  /** The fields that are configured with the level the files carry and they should not
      have: what is read for them goes to a field of their own, and is lost. */
  predicate Misconfigured(noFirstLevel: bool, levels: nat) { noFirstLevel && levels == FULL_LEVELS }

  /** The field after reading a container into it. The container must be of the field's
      type and hold all levels; fewer points than the map has are not handled. */
  ghost function ReadInto(c: Store.Container, m: Map, noFirstLevel: bool, isLfric: bool, field: FieldView)
    : (r: Option<FieldView>)
    requires field.Valid()
    ensures r.Some? ==> r.value.Valid()
  {
    if c.typ != field.typ || |m| > field.points then None
    else
      var levels := if Misconfigured(noFirstLevel, field.levels) then HALF_LEVELS else field.levels;
      var skip := Skip(noFirstLevel, isLfric, levels);
      if !AllWithin(m, levels, skip, |c.data|) then None
      else if Misconfigured(noFirstLevel, field.levels) then Some(field)
      else Some(field.(cells := Decoded(c.data, m, levels, skip, field.cells)))
  }

  method GetReadField(field: Field, noFirstLevel: bool) returns (r: Field)
    ensures if Misconfigured(noFirstLevel, field.values.Length1) then
              fresh(r.values) && r.values.Length0 == field.values.Length0 && r.values.Length1 == HALF_LEVELS
            else r.values == field.values
    ensures r.typ == field.typ
  {
    if noFirstLevel && field.values.Length1 == FULL_LEVELS {
      var values := new real[field.values.Length0, HALF_LEVELS];
      r := new Field(field.name, field.typ, values);
    } else {
      r := field;
    }
  }

  method PopulateFieldWithDataContainer(field: Field, c: Store.Container, m: Map, noFirstLevel: bool, isLfric: bool)
    returns (ok: bool)
    requires !Misconfigured(noFirstLevel, field.values.Length1)
    modifies field.values
    ensures var r := ReadInto(c, m, noFirstLevel, isLfric, old(field.View()));
            ok == r.Some? && (ok ==> field.View() == r.value)
  {
    if c.typ != field.typ || |m| > field.values.Length0 { return false; }
    ghost var before := CellsOf(field.values);
    var outcome := PopulateField(field.values, c.data, m, noFirstLevel, isLfric);
    ok := outcome.Done?;
    ReadDoneIff(m, field.values.Length1, Skip(noFirstLevel, isLfric, field.values.Length1), |c.data|, 0);
    if ok {
      DecodesIs(CellsOf(field.values), before, c.data, m, field.values.Length1,
                Skip(noFirstLevel, isLfric, field.values.Length1));
    }
  }

  ghost function ReadFrom(data: Containers, m: Map, readName: string, noFirstLevel: bool, isLfric: bool,
                          field: FieldView): (r: Option<FieldView>)
    requires field.Valid()
    ensures r.Some? ==> r.value.Valid()
  {
    if readName !in data then None else ReadInto(data[readName], m, noFirstLevel, isLfric, field)
  }

  method PopulateFieldWithFileData(field: Field, fileData: FileData, readName: string, noFirstLevel: bool,
                                   isLfric: bool)
    returns (ok: bool)
    modifies field.values
    ensures var r :=
              ReadFrom(fileData.data.containers, fileData.lfricAtlasMap, readName, noFirstLevel, isLfric,
                       old(field.View()));
            ok == r.Some? && (ok ==> field.View() == r.value)
  {
    var readField := GetReadField(field, noFirstLevel);
    if readName !in fileData.data.containers { return false; }
    ok := PopulateFieldWithDataContainer(readField, fileData.data.containers[readName], fileData.lfricAtlasMap,
                                         noFirstLevel, isLfric);
  }

  function ReadName(md: FieldMetadata, isLfric: bool): string { if isLfric then md.lfricReadName else md.jediName }

  /** The field after reading its variable from an opened file. */
  ghost function FieldOf(f: NcFile, fv: FileView, md: FieldMetadata, isLfric: bool, field: FieldView)
    : (r: Option<FieldView>)
    requires field.Valid()
    ensures r.Some? ==> r.value.Valid()
  {
    match WithData(f, fv, {ReadName(md, isLfric)})
    case None => None
    case Some(w) => ReadFrom(w.data, w.lfricMap, ReadName(md, isLfric), md.noFirstLevel, isLfric, field)
  }

  /** Data are read into a copy of the store and go with it. */
  method ReadIntoCopy(file: File, store: FileData, readName: string) returns (fileData: FileData, ok: bool)
    requires store.Valid()
    ensures var w := WithData(file.nc, store.View(), {readName});
            ok == w.Some? &&
              (ok ==> fileData.data.containers == w.value.data && fileData.lfricAtlasMap == w.value.lfricMap)
  {
    ghost var fv := store.View();
    fileData := new FileData.Copy(store);
    ok := ReadOne(file, fileData, readName);
  }

  method ReadField(file: File, store: FileData, field: Field, md: FieldMetadata, isLfric: bool) returns (ok: bool)
    requires store.Valid()
    modifies field.values
    ensures var r := FieldOf(file.nc, old(store.View()), md, isLfric, old(field.View()));
            ok == r.Some? && (ok ==> field.View() == r.value)
  {
    var fileData;
    fileData, ok := ReadIntoCopy(file, store, ReadName(md, isLfric));
    if !ok { return; }
    ok := PopulateFieldWithFileData(field, fileData, ReadName(md, isLfric), md.noFirstLevel, isLfric);
  }

  /** The field after opening a file and reading the field's variable from it. */
  ghost function FieldFrom(f: NcFile, tree: Tree, atlas: seq<Point>, md: FieldMetadata, field: FieldView)
    : (r: Option<FieldView>)
    requires f.DimsKnown() && field.Valid()
    ensures r.Some? ==> r.value.Valid()
  {
    match Initialised(f, tree, atlas)
    case None => None
    case Some(fv) => FieldFromStore(f, fv, md, field)
  }

  ghost function FieldFromStore(f: NcFile, fv: FileView, md: FieldMetadata, field: FieldView): (r: Option<FieldView>)
    requires field.Valid()
    ensures r.Some? ==> r.value.Valid()
  {
    match IsLfricConvention(fv.meta.attrs)
    case None => None
    case Some(isLfric) => FieldOf(f, fv, md, isLfric, field)
  }

  method ReadFromStore(file: File, store: FileData, field: Field, md: FieldMetadata, isLfric: Option<bool>)
    returns (ok: bool)
    requires store.Valid() && isLfric == IsLfricConvention(store.metadata.globalAttrs)
    modifies field.values
    ensures var r := FieldFromStore(file.nc, old(store.View()), md, old(field.View()));
            ok == r.Some? && (ok ==> field.View() == r.value)
  {
    if isLfric.None? { return false; }
    ok := ReadField(file, store, field, md, isLfric.value);
  }

  method ReadIncrement(file: File, tree: Tree, atlas: seq<Point>, field: Field, md: FieldMetadata) returns (ok: bool)
    requires file.nc.DimsKnown()
    modifies field.values
    ensures var r := FieldFrom(file.nc, tree, atlas, md, old(field.View()));
            ok == r.Some? && (ok ==> field.View() == r.value)
  {
    ghost var before := field.View();
    var store, isLfric;
    store, isLfric, ok := InitialiseFile(file, tree, atlas, false, _ => None);
    if !ok { return; }
    assert field.View() == before && store.View() == Initialised(file.nc, tree, atlas).value;
    ok := ReadFromStore(file, store, field, md, isLfric);
  }

  // ---------------------------------------------------------------------------
  // One field at one time
  // ---------------------------------------------------------------------------

  /** The field after reading one time step of its variable; a field whose name says that
      it is not in such files stays as it is. */
  ghost function FieldAtTime(f: NcFile, fv: FileView, md: FieldMetadata, isLfric: bool, field: FieldView, dateTime: int)
    : (r: Option<FieldView>)
    requires f.Valid() && field.Valid()
    ensures r.Some? ==> r.value.Valid()
  {
    var name := ReadName(md, isLfric);
    if name in MISSING_VARIABLE_NAMES then Some(field)
    else
      match ContainersAtTime(f, fv.meta.vars, fv.data, name, StepOf(fv.dateTimes, dateTime, 0), TIME_DIM_NAME)
      case None => None
      case Some(data) => ReadFrom(data, fv.lfricMap, name, md.noFirstLevel, isLfric, field)
  }

  method ReadTimeIntoCopy(file: File, store: FileData, readName: string, dateTime: int)
    returns (fileData: FileData, ok: bool)
    requires store.Valid() && file.nc.Valid()
    ensures var fv := store.View();
            var r :=
              ContainersAtTime(file.nc, fv.meta.vars, fv.data, readName, StepOf(fv.dateTimes, dateTime, 0),
                               TIME_DIM_NAME);
            ok == r.Some? && (ok ==> fileData.data.containers == r.value && fileData.lfricAtlasMap == fv.lfricMap)
  {
    fileData := new FileData.Copy(store);
    ok := ReadDatumAtTime(file, fileData, readName, dateTime, TIME_DIM_NAME);
  }

  method ReadFieldAtTime(file: File, store: FileData, field: Field, md: FieldMetadata, isLfric: bool, dateTime: int)
    returns (ok: bool)
    requires store.Valid() && file.nc.Valid()
    modifies field.values
    ensures var r := FieldAtTime(file.nc, old(store.View()), md, isLfric, old(field.View()), dateTime);
            ok == r.Some? && (ok ==> field.View() == r.value)
  {
    if ReadName(md, isLfric) in MISSING_VARIABLE_NAMES { return true; }
    var fileData;
    fileData, ok := ReadTimeIntoCopy(file, store, ReadName(md, isLfric), dateTime);
    if !ok { return; }
    ok := PopulateFieldWithFileData(field, fileData, ReadName(md, isLfric), md.noFirstLevel, isLfric);
  }

  /** The field after opening a state file and reading from it. */
  ghost function FieldFromState(f: NcFile, tree: Tree, atlas: seq<Point>, clock: Clock, dateTime: int,
                                md: FieldMetadata, field: FieldView)
    : (r: Option<FieldView>)
    requires f.Valid() && field.Valid()
    ensures r.Some? ==> r.value.Valid()
  {
    match InitialisedFor(f, tree, atlas, true, clock)
    case None => None
    case Some(fv) => FieldFromStateStore(f, fv, dateTime, md, field)
  }

  ghost function FieldFromStateStore(f: NcFile, fv: FileView, dateTime: int, md: FieldMetadata, field: FieldView)
    : (r: Option<FieldView>)
    requires f.Valid() && field.Valid()
    ensures r.Some? ==> r.value.Valid()
  {
    match IsLfricConvention(fv.meta.attrs)
    case None => None
    case Some(isLfric) => FieldAtTime(f, fv, md, isLfric, field, dateTime)
  }

  method ReadFromStateStore(file: File, store: FileData, field: Field, md: FieldMetadata, isLfric: Option<bool>,
                            dateTime: int)
    returns (ok: bool)
    requires store.Valid() && file.nc.Valid() && isLfric == IsLfricConvention(store.metadata.globalAttrs)
    modifies field.values
    ensures var r := FieldFromStateStore(file.nc, old(store.View()), dateTime, md, old(field.View()));
            ok == r.Some? && (ok ==> field.View() == r.value)
  {
    if isLfric.None? { return false; }
    ok := ReadFieldAtTime(file, store, field, md, isLfric.value, dateTime);
  }

  method ReadStateField(file: File, tree: Tree, atlas: seq<Point>, clock: Clock, dateTime: int, field: Field,
                        md: FieldMetadata)
    returns (ok: bool)
    requires file.nc.Valid()
    modifies field.values
    ensures var r := FieldFromState(file.nc, tree, atlas, clock, dateTime, md, old(field.View()));
            ok == r.Some? && (ok ==> field.View() == r.value)
  {
    ghost var before := field.View();
    var store, isLfric;
    store, isLfric, ok := InitialiseFile(file, tree, atlas, true, clock);
    if !ok { return; }
    assert field.View() == before && store.View() == InitialisedFor(file.nc, tree, atlas, true, clock).value;
    ok := ReadFromStateStore(file, store, field, md, isLfric, dateTime);
  }

  /** In a state file whose time comes first and whose date-times are at least a second
      apart, reading at the k-th of them reads from the k-th share of the variable's data. */
  lemma StateFieldIsItsShare(f: NcFile, fv: FileView, md: FieldMetadata, isLfric: bool, field: FieldView,
                             origin: int, offsets: seq<real>, k: nat)
    requires f.Valid() && field.Valid() && fv.dateTimes == DateTimesOf(origin, offsets) && SecondsApart(offsets)
    requires k < |offsets|
    requires var name := ReadName(md, isLfric);
             && name !in MISSING_VARIABLE_NAMES && name !in fv.data && name in fv.meta.vars &&
               fv.meta.vars[name].name == name
             && Describes(fv.meta.vars[name], f) && Unique(fv.meta.vars[name].dims)
    requires var dims := fv.meta.vars[ReadName(md, isLfric)].dims;
             dims != [] && dims[0].0 == TIME_DIM_NAME && k < dims[0].1
    ensures var v := fv.meta.vars[ReadName(md, isLfric)];
            var size := Hyperslab.Product(Hyperslab.Sizes(Hyperslab.WithoutTime(v.dims, TIME_DIM_NAME)));
            && DatumOf(f, v).Some? && 0 <= k * size <= (k + 1) * size <= |DatumOf(f, v).value|
            && FieldAtTime(f, fv, md, isLfric, field, fv.dateTimes[k]) ==
               ReadInto(Store.Container(v.name, v.typ, DatumOf(f, v).value[k * size..(k + 1) * size]),
                        fv.lfricMap, md.noFirstLevel, isLfric, field)
  {
    DateTimeReadsItsShare(f, fv.meta.vars, fv.data, ReadName(md, isLfric), TIME_DIM_NAME, origin, offsets, k);
  }

  // ---------------------------------------------------------------------------
  // All fields
  // ---------------------------------------------------------------------------

  /** How a field is read, whatever file it comes from. */
  type Reading = (FieldMetadata, FieldView) -> Option<FieldView>

  ghost function ReadingFrom(f: NcFile, tree: Tree, atlas: seq<Point>): Reading
    requires f.DimsKnown()
  {
    (md: FieldMetadata, field: FieldView) => if field.Valid() then FieldFrom(f, tree, atlas, md, field) else None
  }

  function ReadRun(read: Reading, fields: map<string, FieldView>, mds: seq<FieldMetadata>)
    : Option<map<string, FieldView>>
  {
    if mds == [] then Some(fields)
    else
      var n := |mds| - 1;
      match ReadRun(read, fields, mds[..n])
      case None => None
      case Some(before) => ReadStep(read, before, mds[n])
  }

  function ReadStep(read: Reading, fields: map<string, FieldView>, md: FieldMetadata): Option<map<string, FieldView>> {
    if md.jediName !in fields then None
    else
      match read(md, fields[md.jediName])
      case None => None
      case Some(field) => Some(fields[md.jediName := field])
  }

  /** No two fields share their values. */
  ghost predicate Separate(fields: map<string, Field>) {
    forall j, k :: j in fields && k in fields && j != k ==> fields[j].values != fields[k].values
  }

  /** Where no other field changed since, just one view did. */
  lemma OneFieldRead(fields: map<string, Field>, before: map<string, FieldView>, name: string)
    requires before.Keys == fields.Keys && name in fields
    requires forall k :: k in fields && k != name ==> fields[k].View() == before[k]
    ensures FieldViews(fields) == before[name := fields[name].View()]
  {
  }

  method ReadNext(file: File, tree: Tree, atlas: seq<Point>, fields: map<string, Field>, md: FieldMetadata)
    returns (ok: bool)
    requires file.nc.DimsKnown() && Separate(fields)
    modifies set k | k in fields :: fields[k].values
    ensures var r := ReadStep(ReadingFrom(file.nc, tree, atlas), old(FieldViews(fields)), md);
            ok == r.Some? && (ok ==> FieldViews(fields) == r.value)
  {
    if md.jediName !in fields { return false; }
    ghost var before := FieldViews(fields);
    ok := ReadIncrement(file, tree, atlas, fields[md.jediName], md);
    forall k | k in fields && k != md.jediName ensures fields[k].View() == before[k] {
      assert fields[k].values != fields[md.jediName].values;
    }
    OneFieldRead(fields, before, md.jediName);
  }

  ghost function ReadingStateFrom(f: NcFile, tree: Tree, atlas: seq<Point>, clock: Clock, dateTime: int): Reading
    requires f.Valid()
  {
    (md: FieldMetadata, field: FieldView) =>
      if field.Valid() then FieldFromState(f, tree, atlas, clock, dateTime, md, field) else None
  }

  method ReadNextState(file: File, tree: Tree, atlas: seq<Point>, clock: Clock, dateTime: int,
                       fields: map<string, Field>, md: FieldMetadata)
    returns (ok: bool)
    requires file.nc.Valid() && Separate(fields)
    modifies set k | k in fields :: fields[k].values
    ensures var r := ReadStep(ReadingStateFrom(file.nc, tree, atlas, clock, dateTime), old(FieldViews(fields)), md);
            ok == r.Some? && (ok ==> FieldViews(fields) == r.value)
  {
    if md.jediName !in fields { return false; }
    ghost var before := FieldViews(fields);
    ok := ReadStateField(file, tree, atlas, clock, dateTime, fields[md.jediName], md);
    forall k | k in fields && k != md.jediName ensures fields[k].View() == before[k] {
      assert fields[k].values != fields[md.jediName].values;
    }
    OneFieldRead(fields, before, md.jediName);
  }

  method ReadState(file: File, tree: Tree, atlas: seq<Point>, clock: Clock, dateTime: int, fields: map<string, Field>,
                   mds: seq<FieldMetadata>)
    returns (ok: bool)
    requires file.nc.Valid() && Separate(fields)
    modifies set k | k in fields :: fields[k].values
    ensures var r := ReadRun(ReadingStateFrom(file.nc, tree, atlas, clock, dateTime), old(FieldViews(fields)), mds);
            ok == (fields != map[] && r.Some?) && (ok ==> FieldViews(fields) == r.value)
  {
    if |fields| == 0 { return false; }
    ghost var f, before := file.nc, FieldViews(fields);
    ghost var read := ReadingStateFrom(f, tree, atlas, clock, dateTime);
    for i := 0 to |mds|
      invariant file.nc == f && ReadRun(read, before, mds[..i]) == Some(FieldViews(fields))
    {
      assert mds[..i + 1][..i] == mds[..i];
      ok := ReadNextState(file, tree, atlas, clock, dateTime, fields, mds[i]);
      if !ok {
        ReadRunFails(read, before, mds, i + 1);
        return;
      }
    }
    assert mds[..|mds|] == mds;
    ok := true;
  }

  method ReadIncrements(file: File, tree: Tree, atlas: seq<Point>, fields: map<string, Field>, mds: seq<FieldMetadata>)
    returns (ok: bool)
    requires file.nc.DimsKnown() && Separate(fields)
    modifies set k | k in fields :: fields[k].values
    ensures var r := ReadRun(ReadingFrom(file.nc, tree, atlas), old(FieldViews(fields)), mds);
            ok == (fields != map[] && r.Some?) && (ok ==> FieldViews(fields) == r.value)
  {
    if |fields| == 0 { return false; }
    ghost var f, before := file.nc, FieldViews(fields);
    ghost var read := ReadingFrom(f, tree, atlas);
    for i := 0 to |mds|
      invariant file.nc == f && ReadRun(read, before, mds[..i]) == Some(FieldViews(fields))
    {
      assert mds[..i + 1][..i] == mds[..i];
      ok := ReadNext(file, tree, atlas, fields, mds[i]);
      if !ok {
        ReadRunFails(read, before, mds, i + 1);
        return;
      }
    }
    assert mds[..|mds|] == mds;
    ok := true;
  }

  lemma {:induction false} ReadRunFails(read: Reading, fields: map<string, FieldView>, mds: seq<FieldMetadata>, i: nat)
    requires i <= |mds| && ReadRun(read, fields, mds[..i]).None?
    ensures ReadRun(read, fields, mds).None?
    decreases |mds|
  {
    if i < |mds| {
      assert mds[..|mds| - 1][..i] == mds[..i];
      ReadRunFails(read, fields, mds[..|mds| - 1], i);
    } else {
      assert mds[..i] == mds;
    }
  }
}
