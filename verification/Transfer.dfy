/** Reading data from a file into a FileData and writing it out again
    (src/monio/Reader.cc, src/monio/Writer.cc). */
module Transfer {
  import opened Options
  import opened SortedKeys
  import opened AddIfAbsent
  import opened Store
  import opened NetCdf
  import DateTimes
  import Hyperslab

  // ---------------------------------------------------------------------------
  // Reading whole variables
  // ---------------------------------------------------------------------------

  function DatumOf(f: NcFile, v: VariableView): Option<seq<real>> {
    Datum(f, v.name, v.typ, v.TotalSize())
  }

  /** The variables whose data can be read, by what the metadata says of them. */
  function DatumNames(f: NcFile, vars: map<string, VariableView>): set<string> {
    set k | k in vars && DatumOf(f, vars[k]).Some?
  }

  /** Their containers; meaningful where the data can be read. */
  function ContainersOf(f: NcFile, vars: map<string, VariableView>): (r: Containers)
    ensures r.Keys == vars.Keys
  {
    map k | k in vars :: Container(vars[k].name, vars[k].typ, DatumOf(f, vars[k]).GetOr([]))
  }

  /** A variable missing from the metadata or from the file is an error; a container
      that is already there stays. */
  method ReadFullDatum(file: File, fileData: FileData, varName: string) returns (ok: bool)
    requires fileData.Valid()
    modifies fileData.data
    ensures ViewsOf(fileData.metadata.variables) == old(ViewsOf(fileData.metadata.variables))
    ensures ok == (varName in DatumNames(file.nc, old(ViewsOf(fileData.metadata.variables))))
    ensures ok ==> fileData.data.containers ==
                   IfAbsent(old(fileData.data.containers), varName,
                            ContainersOf(file.nc, old(ViewsOf(fileData.metadata.variables)))[varName])
  {
    ghost var views := ViewsOf(fileData.metadata.variables);
    if varName !in fileData.metadata.variables { return false; }
    var variable := fileData.metadata.variables[varName];
    var size := variable.GetTotalSize();
    var values := file.ReadSingleDatum(varName, variable.typ, size);
    if values.None? { return false; }
    fileData.data.AddContainer(Container(varName, variable.typ, values.value));
    ok := true;
  }

  method ReadFullData(file: File, fileData: FileData, varNames: seq<string>) returns (ok: bool)
    requires fileData.Valid()
    modifies fileData.data
    ensures ok == AllOf(varNames, DatumNames(file.nc, old(ViewsOf(fileData.metadata.variables))))
    ensures ok ==> (forall k :: k in varNames ==> k in fileData.metadata.variables) &&
                   fileData.data.containers ==
                   AddAll(old(fileData.data.containers),
                          ContainersOf(file.nc, old(ViewsOf(fileData.metadata.variables))), varNames)
  {
    ghost var views, before := ViewsOf(fileData.metadata.variables), fileData.data.containers;
    ghost var found, good := ContainersOf(file.nc, views), DatumNames(file.nc, views);
    for i := 0 to |varNames|
      invariant AllOf(varNames[..i], good) && ViewsOf(fileData.metadata.variables) == views
      invariant forall k :: k in varNames[..i] ==> k in found
      invariant fileData.data.containers == AddAll(before, found, varNames[..i])
    {
      ok := ReadFullDatum(file, fileData, varNames[i]);
      NextOf(varNames, good, i);
      if !ok { return; }
      AddNextKnown(before, found, varNames, i);
    }
    assert varNames[..|varNames|] == varNames;
    ok := true;
  }

  /** All variables of the metadata. */
  method ReadAllData(file: File, fileData: FileData) returns (ok: bool)
    requires fileData.Valid()
    modifies fileData.data
    ensures var views := old(ViewsOf(fileData.metadata.variables));
            ok == (views.Keys <= DatumNames(file.nc, views)) &&
            (ok ==> fileData.data.containers == ContainersOf(file.nc, views) + old(fileData.data.containers))
  {
    var varNames := Sorted(fileData.metadata.variables.Keys);
    ghost var views := ViewsOf(fileData.metadata.variables);
    AllOfSorted(views.Keys, DatumNames(file.nc, views));
    AddEverything(fileData.data.containers, ContainersOf(file.nc, views));
    ok := ReadFullData(file, fileData, varNames);
  }

  // ---------------------------------------------------------------------------
  // Reading one time step
  // ---------------------------------------------------------------------------

  /** The container of one time step, if the date-time, the variable and the data are there. */
  function DatumAtTime(f: NcFile, v: VariableView, timeStep: nat, timeDim: string): Option<Container>
    requires f.Valid()
  {
    var rest := Hyperslab.Sizes(Hyperslab.WithoutTime(v.dims, timeDim));
    var size := Hyperslab.Product(rest);
    match SlabDatum(f, v.name, v.typ, Hyperslab.StepStart(timeStep, rest), [1] + rest, size)
    case None => None
    case Some(values) => Some(Container(v.name, v.typ, values))
  }

  /** The containers after reading a step; a container that is there already stays. */
  function ContainersAtTime(f: NcFile, vars: map<string, VariableView>, data: Containers,
                            varName: string, step: Option<nat>, timeDim: string): Option<Containers>
    requires f.Valid()
  {
    if step.None? then None
    else if varName in data then Some(data)
    else if varName !in vars then None
    else
      match DatumAtTime(f, vars[varName], step.value, timeDim)
      case None => None
      case Some(c) => Some(data[c.name := c])
  }

  /** Reading a step adds that variable's data and changes none that are there. */
  lemma ReadingStepKeeps(f: NcFile, vars: map<string, VariableView>, data: Containers, varName: string,
                         step: Option<nat>, timeDim: string)
    requires f.Valid() && (varName in vars ==> vars[varName].name == varName)
    requires ContainersAtTime(f, vars, data, varName, step, timeDim).Some?
    ensures var r := ContainersAtTime(f, vars, data, varName, step, timeDim).value;
            r.Keys == data.Keys + {varName} && forall k :: k in data ==> r[k] == data[k]
  {
  }

  method ReadDatumAtTime(file: File, fileData: FileData, varName: string, dateTime: int, timeDim: string)
    returns (ok: bool)
    requires fileData.Valid() && file.nc.Valid()
    modifies fileData.data
    ensures var r := ContainersAtTime(file.nc, old(ViewsOf(fileData.metadata.variables)), old(fileData.data.containers),
                                      varName, DateTimes.StepOf(fileData.dateTimes, dateTime, 0), timeDim);
            ok == r.Some? && (ok ==> fileData.data.containers == r.value)
  {
    var step := DateTimes.FindTimeStep(fileData.dateTimes, dateTime);
    if step.None? { return false; }
    if varName in fileData.data.containers { return true; }
    if varName !in fileData.metadata.variables { return false; }
    var variable := fileData.metadata.variables[varName];
    var request := Hyperslab.BuildRequest(variable.dimensions, step.value, timeDim);
    var values := file.ReadFieldDatum(varName, variable.typ, request.start, request.count, request.size);
    if values.None? { return false; }
    fileData.data.AddContainer(Container(varName, variable.typ, values.value));
    ok := true;
  }

  /** A variable of the metadata describes one of the file. */
  ghost predicate Describes(v: VariableView, f: NcFile) {
    && v.name in f.vars && f.vars[v.name].typ == WriteType(v.typ)
    && Defines(f.dims, f.vars[v.name].dims) && Shape(f.dims, f.vars[v.name].dims) == v.dims
  }

  /** For a variable whose first dimension is time, reading a step gives just that
      step's share of what reading all of it gives. */
  lemma StepIsShareOfAll(f: NcFile, v: VariableView, t: nat, timeDim: string)
    requires f.Valid() && Describes(v, f) && Unique(v.dims)
    requires v.dims != [] && v.dims[0].0 == timeDim && t < v.dims[0].1
    ensures var size := Hyperslab.Product(Hyperslab.Sizes(Hyperslab.WithoutTime(v.dims, timeDim)));
            && DatumOf(f, v).Some? && |DatumOf(f, v).value| == v.TotalSize() == v.dims[0].1 * size
            && 0 <= t * size <= (t + 1) * size <= v.TotalSize()
            && DatumAtTime(f, v, t, timeDim) ==
               Some(Container(v.name, v.typ, DatumOf(f, v).value[t * size..(t + 1) * size]))
  {
    var data := f.vars[v.name].data;
    assert |data| == v.TotalSize();
    Hyperslab.TimeStepIsSlice(v.dims, timeDim, t, data);
    Hyperslab.TimeStepsShareOut(v.dims, timeDim);
    var size := Hyperslab.Product(Hyperslab.Sizes(Hyperslab.WithoutTime(v.dims, timeDim)));
    assert (t + 1) * size == t * size + size;
    assert data + [] == data;
  }

  /** With date-times at least a second apart, reading at the k-th of them adds the k-th
      share of all the variable's data. */
  lemma DateTimeReadsItsShare(f: NcFile, vars: map<string, VariableView>, data: Containers, varName: string,
                              timeDim: string, origin: int, offsets: seq<real>, k: nat)
    requires f.Valid() && varName in vars && vars[varName].name == varName && varName !in data
    requires Describes(vars[varName], f) && Unique(vars[varName].dims)
    requires var dims := vars[varName].dims; dims != [] && dims[0].0 == timeDim && k < dims[0].1
    requires DateTimes.SecondsApart(offsets) && k < |offsets|
    ensures var v, dateTimes := vars[varName], DateTimes.DateTimesOf(origin, offsets);
            var size := Hyperslab.Product(Hyperslab.Sizes(Hyperslab.WithoutTime(v.dims, timeDim)));
            && DatumOf(f, v).Some? && 0 <= k * size <= (k + 1) * size <= |DatumOf(f, v).value|
            && ContainersAtTime(f, vars, data, varName, DateTimes.StepOf(dateTimes, dateTimes[k], 0), timeDim) ==
               Some(data[varName := Container(varName, v.typ, DatumOf(f, v).value[k * size..(k + 1) * size])])
  {
    DateTimes.SecondsApartAreFound(origin, offsets);
    StepIsShareOfAll(f, vars[varName], k, timeDim);
  }

  // ---------------------------------------------------------------------------
  // Writing data
  // ---------------------------------------------------------------------------

  /** The containers that can be written: their variable is in the metadata and in the
      file, and they fill it. */
  function PutNames(f: map<string, NcVar>, vars: map<string, VariableView>, data: Containers): set<string> {
    set k | k in data && k in vars && k in f && CanFill(f[k], data[k])
  }

  /** The file's variables after the containers for these keys were written in turn. */
  function PutAll(f: map<string, NcVar>, data: Containers, keys: seq<string>): map<string, NcVar>
    requires forall k :: k in keys ==> k in f && k in data && CanFill(f[k], data[k])
  {
    if keys == [] then f
    else
      var n := |keys| - 1;
      PutAll(f, data, keys[..n])[keys[n] := Filled(f[keys[n]], data[keys[n]])]
  }

  lemma {:induction false} PutAllIs(f: map<string, NcVar>, data: Containers, keys: seq<string>)
    requires forall k :: k in keys ==> k in f && k in data && CanFill(f[k], data[k])
    ensures PutAll(f, data, keys).Keys == f.Keys
    ensures forall k :: k in f ==>
              PutAll(f, data, keys)[k] == if k in keys then Filled(f[k], data[k]) else f[k]
  {
    if keys != [] {
      PutAllIs(f, data, keys[..|keys| - 1]);
      assert keys == keys[..|keys| - 1] + [keys[|keys| - 1]];
    }
  }

  lemma PutNext(f: map<string, NcVar>, data: Containers, keys: seq<string>, i: nat)
    requires i < |keys| && forall k :: k in keys[..i] ==> k in f && k in data && CanFill(f[k], data[k])
    requires keys[i] in f && keys[i] in data && CanFill(f[keys[i]], data[keys[i]])
    ensures forall k :: k in keys[..i + 1] ==> k in f && k in data && CanFill(f[k], data[k])
    ensures PutAll(f, data, keys[..i + 1]) == PutAll(f, data, keys[..i])[keys[i] := Filled(f[keys[i]], data[keys[i]])]
  {
    assert keys[..i + 1] == keys[..i] + [keys[i]];
    assert keys[..i + 1][..i] == keys[..i];
  }

  /** The file with the data written. */
  function FileWithData(f: NcFile, data: Containers): NcFile {
    f.(vars := map k | k in f.vars ::
         if k in data && CanFill(f.vars[k], data[k]) then Filled(f.vars[k], data[k]) else f.vars[k])
  }

  predicate DataWritable(f: NcFile, vars: map<string, VariableView>, data: Containers) {
    data.Keys <= PutNames(f.vars, vars, data)
  }

  lemma PutEverything(f: NcFile, data: Containers, keys: seq<string>)
    requires keys == Sorted(data.Keys)
    requires forall k :: k in keys ==> k in f.vars && k in data && CanFill(f.vars[k], data[k])
    ensures f.(vars := PutAll(f.vars, data, keys)) == FileWithData(f, data)
  {
    SortedHasKeys(data.Keys);
    PutAllIs(f.vars, data, keys);
  }

  method WriteDataInTurn(file: File, fileData: FileData, keys: seq<string>) returns (ok: bool)
    requires fileData.Valid() && forall k :: k in keys ==> k in fileData.data.containers
    requires forall i, j :: 0 <= i < j < |keys| ==> keys[i] != keys[j]
    modifies file
    ensures var good :=
              PutNames(old(file.nc).vars, old(ViewsOf(fileData.metadata.variables)), fileData.data.containers);
            ok == AllOf(keys, good)
    ensures ok ==>
              (forall k :: k in keys ==>
               k in old(file.nc).vars && CanFill(old(file.nc).vars[k], fileData.data.containers[k])) &&
                   file.nc == old(file.nc).(vars := PutAll(old(file.nc).vars, fileData.data.containers, keys))
  {
    ghost var was, data, views := file.nc, fileData.data.containers, ViewsOf(fileData.metadata.variables);
    ghost var good := PutNames(was.vars, views, data);
    for i := 0 to |keys|
      invariant AllOf(keys[..i], good)
      invariant forall k :: k in keys[..i] ==> k in was.vars && k in data && CanFill(was.vars[k], data[k])
      invariant file.nc == was.(vars := PutAll(was.vars, data, keys[..i]))
    {
      var k := keys[i];
      NextOf(keys, good, i);
      PutAllIs(was.vars, data, keys[..i]);
      if k !in fileData.metadata.variables { return false; }
      assert k !in keys[..i];
      ok := file.WriteSingleDatum(k, fileData.data.containers[k]);
      if !ok { return; }
      PutNext(was.vars, data, keys, i);
    }
    assert keys[..|keys|] == keys;
    ok := true;
  }

  /** Each container to its variable; a container without a variable in the metadata is
      an error. */
  method WriteData(file: File, fileData: FileData) returns (ok: bool)
    requires fileData.Valid()
    modifies file
    ensures ok == DataWritable(old(file.nc), old(ViewsOf(fileData.metadata.variables)), fileData.data.containers)
    ensures ok ==> file.nc == FileWithData(old(file.nc), fileData.data.containers)
  {
    var keys := Sorted(fileData.data.containers.Keys);
    ghost var was, data := file.nc, fileData.data.containers;
    SortedHasKeys(data.Keys);
    SortedIsDistinct(data.Keys);
    AllOfSorted(data.Keys, PutNames(was.vars, ViewsOf(fileData.metadata.variables), data));
    ok := WriteDataInTurn(file, fileData, keys);
    if ok { PutEverything(was, data, keys); }
  }

  predicate StoreWritable(f: NcFile, fv: FileView) {
    Writable(f, fv.meta) && DataWritable(FileWith(f, fv.meta), fv.meta.vars, fv.data)
  }

  /** The file with everything the store holds. */
  function FileWithStore(f: NcFile, fv: FileView): NcFile { FileWithData(FileWith(f, fv.meta), fv.data) }

  /** Metadata, then data. */
  method WriteStore(file: File, fileData: FileData) returns (ok: bool)
    requires fileData.Valid()
    modifies file
    ensures ok == StoreWritable(old(file.nc), old(fileData.View()))
    ensures ok ==> file.nc == FileWithStore(old(file.nc), old(fileData.View()))
  {
    ghost var fv, f := fileData.View(), file.nc;
    ok := file.WriteMetadata(fileData.metadata);
    if !ok { return; }
    assert fileData.View() == fv && file.nc == FileWith(f, fv.meta);
    ok := WriteData(file, fileData);
  }
}
