/** Reading a whole file and writing it to another: the promise behind the test
    test/monio/StateBasic.h. */
module FileCopy {
  import opened Options
  import opened AddIfAbsent
  import opened Store
  import opened NetCdf
  import opened Transfer
  import opened Equality

  /** What a copy changes: attributes of the types MONIO does not keep. */
  function NormalAttr(a: NcAttr): NcAttr {
    match a
    case NcShortAttr(i) => NcIntAttr(i)
    case NcFloatAttr(r) => NcDoubleAttr(r)
    case _ => a
  }

  function NormalAttrs(attrs: map<string, NcAttr>): map<string, NcAttr> { map a | a in attrs :: NormalAttr(attrs[a]) }

  function NormalVar(v: NcVar): NcVar { v.(attrs := NormalAttrs(v.attrs)) }

  function Normalised(f: NcFile): NcFile {
    NcFile(f.dims, map k | k in f.vars :: NormalVar(f.vars[k]), NormalAttrs(f.attrs))
  }

  lemma AttrsRoundTrip(attrs: map<string, NcAttr>)
    requires ReadableAttrs(attrs)
    ensures WriteAttrs(ReadAttrs(attrs)) == NormalAttrs(attrs)
    ensures ReadableAttrs(NormalAttrs(attrs)) && ReadAttrs(NormalAttrs(attrs)) == ReadAttrs(attrs)
  {
    forall a | a in attrs ensures ReadAttr(attrs[a]).Some? { assert a in ReadableAttrNames(attrs); }
  }

  /** Everything that is read from a variable and what it becomes in a new file. */
  lemma VariableRoundTrip(f: NcFile, k: string)
    requires f.Valid() && k in f.vars && ReadableVar(f.vars[k])
    ensures var v := VariableOf(f, k);
            && DimNames(v.dims) == f.vars[k].dims && v.TotalSize() == |f.vars[k].data|
            && DatumOf(f, v) == Some(f.vars[k].data)
            && CanFill(NewVar(f.dims, v), Container(k, v.typ, f.vars[k].data))
            && Filled(NewVar(f.dims, v), Container(k, v.typ, f.vars[k].data)) == NormalVar(f.vars[k])
  {
    var v := VariableOf(f, k);
    assert DimNames(v.dims) == f.vars[k].dims;
    AttrsRoundTrip(f.vars[k].attrs);
  }

  lemma ReadsAllData(f: NcFile)
    requires f.Valid() && Readable(f)
    ensures var views := VariablesOf(f);
            views.Keys <= DatumNames(f, views) &&
            forall k :: k in f.vars ==> ContainersOf(f, views)[k] == Container(k, views[k].typ, f.vars[k].data)
  {
    forall k | k in f.vars
      ensures DatumOf(f, VariablesOf(f)[k]) == Some(f.vars[k].data)
    {
      assert k in ReadableNames(f);
      VariableRoundTrip(f, k);
    }
  }

  lemma MetadataOfCopy(f: NcFile)
    requires f.DimsKnown() && ReadableAttrs(f.attrs)
    ensures MetaWith(EMPTY_META, f) == Meta(f.dims, VariablesOf(f), ReadAttrs(f.attrs))
    ensures WithDims(EMPTY_FILE, MetaWith(EMPTY_META, f)) == NcFile(f.dims, map[], map[])
    ensures FileWith(EMPTY_FILE, MetaWith(EMPTY_META, f)) ==
            NcFile(f.dims, NewVars(f.dims, VariablesOf(f)), NormalAttrs(f.attrs))
  {
    AttrsRoundTrip(f.attrs);
    AddToNothing(f.dims);
    AddToNothing(VariablesOf(f));
    AddToNothing(ReadAttrs(f.attrs));
    AddToNothing(NewVars(f.dims, VariablesOf(f)));
    AddToNothing(NormalAttrs(f.attrs));
  }

  lemma CopyIsWritable(f: NcFile)
    requires f.Valid() && Readable(f)
    ensures Writable(EMPTY_FILE, MetaWith(EMPTY_META, f))
  {
    MetadataOfCopy(f);
    forall k | k in f.vars ensures Defines(f.dims, DimNames(VariablesOf(f)[k].dims)) {
      assert DimNames(VariableOf(f, k).dims) == f.vars[k].dims;
    }
  }

  lemma VariableOfCopy(f: NcFile, k: string)
    requires f.Valid() && Readable(f) && k in f.vars
    ensures var views := VariablesOf(f);
            CanFill(NewVars(f.dims, views)[k], ContainersOf(f, views)[k]) &&
            Filled(NewVars(f.dims, views)[k], ContainersOf(f, views)[k]) == NormalVar(f.vars[k])
  {
    assert k in ReadableNames(f);
    VariableRoundTrip(f, k);
  }

  lemma DataOfCopy(f: NcFile, g: NcFile, views: map<string, VariableView>, data: Containers)
    requires g.vars.Keys == views.Keys == data.Keys == f.vars.Keys && g.dims == f.dims
    requires g.attrs == NormalAttrs(f.attrs)
    requires forall k :: k in f.vars ==>
               CanFill(g.vars[k], data[k]) && Filled(g.vars[k], data[k]) == NormalVar(f.vars[k])
    ensures DataWritable(g, views, data) && FileWithData(g, data) == Normalised(f)
  {
  }

  /** What was read can be written to an empty file, and gives the normalised file. */
  lemma WritesNormalised(f: NcFile)
    requires f.Valid() && Readable(f)
    ensures var m := MetaWith(EMPTY_META, f);
            var data, g := ContainersOf(f, m.vars), FileWith(EMPTY_FILE, m);
            Writable(EMPTY_FILE, m) && DataWritable(g, m.vars, data) && FileWithData(g, data) == Normalised(f)
  {
    MetadataOfCopy(f);
    CopyIsWritable(f);
    var views := VariablesOf(f);
    forall k | k in f.vars
      ensures CanFill(NewVars(f.dims, views)[k], ContainersOf(f, views)[k]) &&
              Filled(NewVars(f.dims, views)[k], ContainersOf(f, views)[k]) == NormalVar(f.vars[k])
    {
      VariableOfCopy(f, k);
    }
    DataOfCopy(f, FileWith(EMPTY_FILE, MetaWith(EMPTY_META, f)), views, ContainersOf(f, views));
  }

  lemma NormalVariable(f: NcFile, k: string)
    requires f.Valid() && Readable(f) && k in f.vars
    ensures var g := Normalised(f);
            && ReadableVar(g.vars[k]) && NormalVar(g.vars[k]) == g.vars[k]
            && VariableOf(g, k) == VariableOf(f, k)
  {
    assert k in ReadableNames(f);
    AttrsRoundTrip(f.vars[k].attrs);
  }

  lemma NormalisedIsReadable(f: NcFile)
    requires f.Valid() && Readable(f)
    ensures Normalised(f).Valid() && Readable(Normalised(f)) && VariablesOf(Normalised(f)) == VariablesOf(f)
  {
    AttrsRoundTrip(f.attrs);
    NormalisedVariables(f);
  }

  lemma NormalisedVariables(f: NcFile)
    requires f.Valid() && Readable(f)
    ensures Normalised(f).DimsKnown() && Normalised(f).vars.Keys <= ReadableNames(Normalised(f))
    ensures VariablesOf(Normalised(f)) == VariablesOf(f)
  {
    forall k | k in f.vars
      ensures ReadableVar(Normalised(f).vars[k]) && VariableOf(Normalised(f), k) == VariableOf(f, k)
    {
      NormalVariable(f, k);
    }
  }

  /** A second copy changes nothing more. */
  lemma NormalisedTwice(f: NcFile)
    requires f.Valid() && Readable(f)
    ensures Normalised(Normalised(f)) == Normalised(f)
  {
    AttrsRoundTrip(f.attrs);
    forall k | k in f.vars ensures NormalVar(Normalised(f).vars[k]) == Normalised(f).vars[k] {
      NormalVariable(f, k);
    }
  }

  /** Reading the copy gives back just what was read before. */
  lemma NormalisedReadsTheSame(f: NcFile)
    requires f.Valid() && Readable(f)
    ensures var g := Normalised(f);
            && g.Valid() && Readable(g) && MetaWith(EMPTY_META, g) == MetaWith(EMPTY_META, f)
            && ContainersOf(g, VariablesOf(f)) == ContainersOf(f, VariablesOf(f))
  {
    NormalisedIsReadable(f);
    AttrsRoundTrip(f.attrs);
    MetadataOfCopy(f);
    MetadataOfCopy(Normalised(f));
    ReadsAllData(f);
    ReadsAllData(Normalised(f));
  }

  /** What is known of a file when everything in it has been read. */
  function Contents(f: NcFile): (Meta, Containers)
    requires f.DimsKnown()
  {
    (MetaWith(EMPTY_META, f), ContainersOf(f, VariablesOf(f)))
  }

  predicate AllReadable(f: NcFile)
    requires f.DimsKnown()
  {
    Readable(f) && f.vars.Keys <= DatumNames(f, VariablesOf(f))
  }

  /** The file that metadata and data, written to an empty file, make. */
  function Output(m: Meta, data: Containers): NcFile { FileWithStore(EMPTY_FILE, FileView(m, data, [], [])) }

  predicate AllWritable(m: Meta, data: Containers) { StoreWritable(EMPTY_FILE, FileView(m, data, [], [])) }

  /** Copying is a projection: a readable file can be read and written whole, the copy
      is the normalised file, reads back the same, and is its own copy. */
  lemma CopyLaw(f: NcFile)
    requires f.Valid() && Readable(f)
    ensures AllReadable(f)
    ensures var (m, data) := Contents(f);
            AllWritable(m, data) && Output(m, data) == Normalised(f)
    ensures var g := Normalised(f);
            g.Valid() && AllReadable(g) && Contents(g) == Contents(f) && Normalised(g) == g
  {
    ReadsAllData(f);
    WritesNormalised(f);
    MetadataOfCopy(f);
    NormalisedReadsTheSame(f);
    NormalisedTwice(f);
    NormalisedIsReadable(f);
    ReadsAllData(Normalised(f));
  }

  /** The test in terms of what it calls: read a file, write it, read the copy, and
      compare with the two operators. It passes for every file that can be read. */
  lemma BasicStateTestPasses(f: NcFile)
    requires f.Valid() && Readable(f)
    ensures var (m, data) := Contents(f);
            var g := Output(m, data);
            && AllReadable(f) && AllWritable(m, data) && g.DimsKnown() && AllReadable(g)
            && var (m', data') := Contents(g);
               DimensionsPass(m.dims, m'.dims) && m.vars == m'.vars && SameContainers(data, data')
  {
    CopyLaw(f);
  }

  /** First half of the test: read everything there is in a file. */
  method ReadAll(input: File, fileData: FileData) returns (ok: bool)
    requires input.nc.DimsKnown() && fileData.Valid() && fileData.View() == EMPTY_FILE_VIEW
    modifies fileData.metadata, fileData.data
    ensures fileData.Valid() && ok == AllReadable(input.nc)
    ensures ok ==> (fileData.metadata.View(), fileData.data.containers) == Contents(input.nc)
  {
    ok := input.ReadMetadata(fileData.metadata);
    if !ok { return; }
    ghost var views := VariablesOf(input.nc);
    AddToNothing(views);
    AddToNothing(ContainersOf(input.nc, views));
    ok := ReadData(input, fileData);
  }

  method ReadData(input: File, fileData: FileData) returns (ok: bool)
    requires fileData.Valid()
    modifies fileData.data
    ensures fileData.Valid() && fileData.metadata.View() == old(fileData.metadata.View())
    ensures var views := old(fileData.metadata.View()).vars;
            ok == (views.Keys <= DatumNames(input.nc, views)) &&
            (ok ==> fileData.data.containers == ContainersOf(input.nc, views) + old(fileData.data.containers))
  {
    ghost var m := fileData.metadata.View();
    ok := ReadAllData(input, fileData);
    assert fileData.metadata.View() == m;
  }
}
