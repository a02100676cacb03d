/** An abstract NetCDF file, and what src/monio/File.cc reads from and writes to it. */
module NetCdf {
  import opened Options
  import opened SortedKeys
  import opened Store
  import opened AddIfAbsent
  import Hyperslab

  datatype NcType = NcInt | NcFloat | NcDouble | NcUnsupported

  /** Attribute values by the type they have in the file; all are scalars. */
  datatype NcAttr =
    | NcText(s: string) | NcShortAttr(i: int) | NcIntAttr(i: int) | NcFloatAttr(r: real) | NcDoubleAttr(r: real)
    | NcUnsupportedAttr

  datatype NcVar = NcVar(typ: NcType, dims: seq<string>, attrs: map<string, NcAttr>, data: seq<real>)

  predicate Defines(dims: map<string, nat>, names: seq<string>) { forall d :: d in names ==> d in dims }

  /** The dimensions of a list of names, with their sizes. */
  function Shape(dims: map<string, nat>, names: seq<string>): (r: Dimensions)
    requires Defines(dims, names)
    ensures |r| == |names|
    ensures forall i :: 0 <= i < |names| ==> r[i] == (names[i], dims[names[i]])
  {
    seq(|names|, i requires 0 <= i < |names| => (names[i], dims[names[i]]))
  }

  datatype NcFile = NcFile(dims: map<string, nat>, vars: map<string, NcVar>, attrs: map<string, NcAttr>)
  {
    /** What the NetCDF library guarantees: dimensions exist, data fill them. */
    ghost predicate Valid() {
      DimsKnown() && forall k :: k in vars ==> |vars[k].data| == Hyperslab.TotalSize(Shape(dims, vars[k].dims))
    }

    ghost predicate DimsKnown() { forall k :: k in vars ==> Defines(dims, vars[k].dims) }
  }

  const EMPTY_FILE := NcFile(map[], map[], map[])

  // ---------------------------------------------------------------------------
  // Types in the file and types in the store
  // ---------------------------------------------------------------------------

  function ReadType(t: NcType): Option<DataType> {
    match t
    case NcInt => Some(IntType)
    case NcFloat => Some(FloatType)
    case NcDouble => Some(DoubleType)
    case NcUnsupported => None
  }

  function WriteType(t: DataType): NcType {
    match t
    case IntType => NcInt
    case FloatType => NcFloat
    case DoubleType => NcDouble
  }

  function ReadAttr(a: NcAttr): Option<Attribute> {
    match a
    case NcText(s) => Some(StringAttr(s))
    case NcShortAttr(i) => Some(IntAttr(i))
    case NcIntAttr(i) => Some(IntAttr(i))
    case NcFloatAttr(r) => Some(DoubleAttr(r))
    case NcDoubleAttr(r) => Some(DoubleAttr(r))
    case NcUnsupportedAttr => None
  }

  function WriteAttr(a: Attribute): NcAttr {
    match a
    case IntAttr(i) => NcIntAttr(i)
    case DoubleAttr(r) => NcDoubleAttr(r)
    case StringAttr(s) => NcText(s)
  }

  predicate ReadableAttrs(attrs: map<string, NcAttr>) {
    attrs.Keys <= ReadableAttrNames(attrs)
  }

  /** Attributes as the store has them; meaningful where all types are known. */
  function ReadAttrs(attrs: map<string, NcAttr>): (r: map<string, Attribute>)
    ensures r.Keys == attrs.Keys
  {
    map a | a in attrs :: ReadAttr(attrs[a]).GetOr(StringAttr(""))
  }

  function WriteAttrs(attrs: map<string, Attribute>): (r: map<string, NcAttr>)
    ensures r.Keys == attrs.Keys
  {
    map a | a in attrs :: WriteAttr(attrs[a])
  }

  predicate NoRepeats(names: seq<string>) {
    forall i, j :: 0 <= i < j < |names| ==> names[i] != names[j]
  }

  /** A variable MONIO can read: known types, no dimension listed twice. */
  predicate ReadableVar(v: NcVar) {
    ReadType(v.typ).Some? && NoRepeats(v.dims) && ReadableAttrs(v.attrs)
  }

  function ReadableNames(f: NcFile): set<string> { set k | k in f.vars && ReadableVar(f.vars[k]) }

  function ReadableAttrNames(attrs: map<string, NcAttr>): set<string> {
    set a | a in attrs && ReadAttr(attrs[a]).Some?
  }

  predicate Readable(f: NcFile) {
    f.vars.Keys <= ReadableNames(f) && ReadableAttrs(f.attrs)
  }

  // ---------------------------------------------------------------------------
  // Reading metadata
  // ---------------------------------------------------------------------------

  /** A variable as the store has it; meaningful where it can be read. */
  function VariableOf(f: NcFile, k: string): VariableView
    requires k in f.vars && Defines(f.dims, f.vars[k].dims)
  {
    var v := f.vars[k];
    VariableView(k, ReadType(v.typ).GetOr(IntType), Shape(f.dims, v.dims), ReadAttrs(v.attrs))
  }

  function VariablesOf(f: NcFile): (r: map<string, VariableView>)
    requires f.DimsKnown()
    ensures r.Keys == f.vars.Keys
  {
    map k | k in f.vars :: VariableOf(f, k)
  }

  /** The metadata of a file, added to metadata that may already hold some. */
  function MetaWith(m: Meta, f: NcFile): Meta
    requires f.DimsKnown()
  {
    Meta(f.dims + m.dims, VariablesOf(f) + m.vars, ReadAttrs(f.attrs) + m.attrs)
  }

  // ---------------------------------------------------------------------------
  // Writing metadata
  // ---------------------------------------------------------------------------

  /** The value NetCDF gives to what was never written. */
  function FillValue(t: NcType): real {
    if t == NcInt then -2147483647.0 else 9.9692099683868690e36
  }

  function DimNames(dims: Dimensions): (r: seq<string>)
    ensures |r| == |dims| && forall i :: 0 <= i < |dims| ==> r[i] == dims[i].0
  {
    seq(|dims|, i requires 0 <= i < |dims| => dims[i].0)
  }

  /** A variable just added to a file of these dimensions; meaningful where
      these define the variable's. */
  function NewVar(dims: map<string, nat>, v: VariableView): NcVar {
    var names, typ := DimNames(v.dims), WriteType(v.typ);
    var size := if Defines(dims, names) then Hyperslab.TotalSize(Shape(dims, names)) else 0;
    NcVar(typ, names, WriteAttrs(v.attrs), seq(size, _ => FillValue(typ)))
  }

  function NewVars(dims: map<string, nat>, vars: map<string, VariableView>): (r: map<string, NcVar>)
    ensures r.Keys == vars.Keys
  {
    map k | k in vars :: NewVar(dims, vars[k])
  }

  function WithDims(f: NcFile, m: Meta): NcFile { f.(dims := m.dims + f.dims) }

  /** The variables the file has or can be given: their dimensions are defined. */
  function AddableNames(f: NcFile, vars: map<string, VariableView>): set<string> {
    set k | k in vars && (k in f.vars || Defines(f.dims, DimNames(vars[k].dims)))
  }

  predicate Writable(f: NcFile, m: Meta) {
    m.vars.Keys <= AddableNames(WithDims(f, m), m.vars)
  }

  /** The file with the metadata it did not have yet. */
  function FileWith(f: NcFile, m: Meta): NcFile {
    var g := WithDims(f, m);
    NcFile(g.dims, NewVars(g.dims, m.vars) + f.vars, WriteAttrs(m.attrs) + f.attrs)
  }

  // ---------------------------------------------------------------------------
  // Data
  // ---------------------------------------------------------------------------

  /** A write takes as many values as the variable has from the container, which must
      have them, and be of the variable's type. */
  predicate CanFill(v: NcVar, c: Container) { v.typ == WriteType(c.typ) && |v.data| <= |c.data| }

  function Filled(v: NcVar, c: Container): (r: NcVar)
    requires CanFill(v, c)
    ensures |v.data| == |c.data| ==> r.data == c.data
  {
    v.(data := c.data[..|v.data|])
  }

  /** Zeros after the values, up to that size. */
  function Padded(values: seq<real>, size: nat): (r: seq<real>)
    requires |values| <= size
    ensures |r| == size && values == r[..|values|]
    ensures |values| == size ==> r == values
  {
    values + seq(size - |values|, _ => 0.0)
  }

  /** A container of that size filled from a variable of that type: all its values, and
      zeros after them; values that do not fit are an error. */
  function Datum(f: NcFile, k: string, typ: DataType, size: nat): Option<seq<real>> {
    if k !in f.vars || f.vars[k].typ != WriteType(typ) || |f.vars[k].data| > size then None
    else Some(Padded(f.vars[k].data, size))
  }

  /** The same for a hyperslab. */
  function SlabDatum(f: NcFile, k: string, typ: DataType, start: seq<nat>, count: seq<nat>, size: nat)
    : Option<seq<real>>
    requires f.Valid()
  {
    if k !in f.vars || f.vars[k].typ != WriteType(typ) then None
    else
      var sizes := Hyperslab.Sizes(Shape(f.dims, f.vars[k].dims));
      if !Hyperslab.InRange(sizes, start, count) then None
      else
        var values := Hyperslab.Slab(f.vars[k].data, sizes, start, count);
        if |values| > size then None else Some(Padded(values, size))
  }

  lemma ShapeHas(f: NcFile, names: seq<string>, d: string)
    requires Defines(f.dims, names)
    ensures HasDim(Shape(f.dims, names), d) <==> d in names
  {
    if d in names {
      var i :| 0 <= i < |names| && names[i] == d;
      assert Shape(f.dims, names)[i].0 == d;
    }
  }

  lemma ShapeUnique(f: NcFile, names: seq<string>)
    requires Defines(f.dims, names) && NoRepeats(names)
    ensures Unique(Shape(f.dims, names))
  {
  }

  /** A NetCDF file that is open for reading or for writing. */
  class File {
    var nc: NcFile

    constructor (nc: NcFile)
      ensures this.nc == nc
    {
      this.nc := nc;
    }

    method ReadDimensions(metadata: Metadata)
      modifies metadata`dimensions
      ensures metadata.dimensions == nc.dims + old(metadata.dimensions)
    {
      var keys := Sorted(nc.dims.Keys);
      SortedHasKeys(nc.dims.Keys);
      for i := 0 to |keys|
        invariant metadata.dimensions == AddAll(old(metadata.dimensions), nc.dims, keys[..i])
      {
        metadata.AddDimension(keys[i], nc.dims[keys[i]]);
        AddNext(old(metadata.dimensions), nc.dims, keys, i);
      }
      assert keys[..|keys|] == keys;
      AddEverything(old(metadata.dimensions), nc.dims);
    }

    /** The dimension list of a variable; a repeated name is an error. */
    method ReadVariableDimensions(v: Variable, names: seq<string>) returns (ok: bool)
      requires v.Valid() && v.dimensions == [] && Defines(nc.dims, names)
      modifies v
      ensures v.Valid() && ok == NoRepeats(names)
      ensures ok ==> v.View() == old(v.View()).(dims := Shape(nc.dims, names))
    {
      for i := 0 to |names|
        invariant v.Valid() && NoRepeats(names[..i]) && v.View() == old(v.View()).(dims := Shape(nc.dims, names[..i]))
      {
        ShapeHas(nc, names[..i], names[i]);
        ok := v.AddDimension(names[i], nc.dims[names[i]]);
        if !ok { return; }
        assert Shape(nc.dims, names[..i + 1]) == Shape(nc.dims, names[..i]) + [(names[i], nc.dims[names[i]])];
      }
      assert names[..|names|] == names;
      ok := true;
    }

    /** Attributes of a known type; any other is an error. */
    method ReadVariableAttributes(v: Variable, attrs: map<string, NcAttr>) returns (ok: bool)
      requires v.Valid() && v.attributes == map[]
      modifies v
      ensures v.Valid() && ok == ReadableAttrs(attrs)
      ensures ok ==> v.View() == old(v.View()).(attrs := ReadAttrs(attrs))
    {
      var rest := attrs.Keys;
      while rest != {}
        invariant rest <= attrs.Keys && v.Valid()
        invariant forall a :: a in attrs && a !in rest ==> ReadAttr(attrs[a]).Some?
        invariant v.View() == old(v.View()).(attrs := ReadAttrs(attrs - rest))
        decreases |rest|
      {
        var a :| a in rest;
        var value := ReadAttr(attrs[a]);
        if value.None? { return false; }
        ok := v.AddAttribute(a, value.value);
        rest := rest - {a};
      }
      assert attrs - rest == attrs;
      ok := true;
    }

    /** A new object for a variable of the file, if it can be read. */
    method BuildVariable(k: string) returns (v: Variable, ok: bool)
      requires k in nc.vars && Defines(nc.dims, nc.vars[k].dims)
      ensures fresh(v) && v.Valid() && v.name == k && ok == ReadableVar(nc.vars[k])
      ensures ok ==> v.View() == VariableOf(nc, k)
    {
      var ncVar := nc.vars[k];
      var typ := ReadType(ncVar.typ);
      v := new Variable(k, typ.GetOr(IntType));
      if typ.None? { return v, false; }
      ok := ReadVariableDimensions(v, ncVar.dims);
      if !ok { return; }
      ok := ReadVariableAttributes(v, ncVar.attrs);
    }

    method ReadVariable(metadata: Metadata, k: string) returns (ok: bool)
      requires metadata.Valid() && k in nc.vars && Defines(nc.dims, nc.vars[k].dims)
      requires nc.dims.Keys <= metadata.dimensions.Keys
      modifies metadata`variables
      ensures metadata.Valid() && ok == ReadableVar(nc.vars[k])
      ensures ok ==> ViewsOf(metadata.variables) == IfAbsent(old(ViewsOf(metadata.variables)), k, VariableOf(nc, k))
      ensures fresh(metadata.variables.Values - old(metadata.variables.Values))
    {
      var v;
      v, ok := BuildVariable(k);
      if ok { metadata.AddVariable(v); }
    }

    method ReadVariablesInTurn(metadata: Metadata, keys: seq<string>) returns (ok: bool)
      requires metadata.Valid() && nc.DimsKnown() && nc.dims.Keys <= metadata.dimensions.Keys
      requires forall k :: k in keys ==> k in nc.vars
      modifies metadata`variables
      ensures metadata.Valid() && ok == AllOf(keys, ReadableNames(nc))
      ensures ok ==> ViewsOf(metadata.variables) == AddAll(old(ViewsOf(metadata.variables)), VariablesOf(nc), keys)
      ensures fresh(metadata.variables.Values - old(metadata.variables.Values))
    {
      ghost var f, before, found := nc, ViewsOf(metadata.variables), VariablesOf(nc);
      for i := 0 to |keys|
        invariant nc == f && metadata.Valid() && fresh(metadata.variables.Values - old(metadata.variables.Values))
        invariant AllOf(keys[..i], ReadableNames(f)) && ViewsOf(metadata.variables) == AddAll(before, found, keys[..i])
      {
        NextOf(keys, ReadableNames(f), i);
        AddNext(before, found, keys, i);
        ok := ReadVariable(metadata, keys[i]);
        if !ok { return; }
      }
      assert keys[..|keys|] == keys;
      ok := true;
    }

    method ReadVariables(metadata: Metadata) returns (ok: bool)
      requires metadata.Valid() && nc.DimsKnown() && nc.dims.Keys <= metadata.dimensions.Keys
      modifies metadata`variables
      ensures metadata.Valid() && ok == (nc.vars.Keys <= ReadableNames(nc))
      ensures ok ==> ViewsOf(metadata.variables) == VariablesOf(nc) + old(ViewsOf(metadata.variables))
      ensures fresh(metadata.variables.Values - old(metadata.variables.Values))
    {
      SortedHasKeys(nc.vars.Keys);
      AllOfSorted(nc.vars.Keys, ReadableNames(nc));
      AddEverything(ViewsOf(metadata.variables), VariablesOf(nc));
      ok := ReadVariablesInTurn(metadata, Sorted(nc.vars.Keys));
    }

    method ReadAttributesInTurn(metadata: Metadata, keys: seq<string>) returns (ok: bool)
      requires forall a :: a in keys ==> a in nc.attrs
      modifies metadata`globalAttrs
      ensures ok == AllOf(keys, ReadableAttrNames(nc.attrs))
      ensures ok ==> metadata.globalAttrs == AddAll(old(metadata.globalAttrs), ReadAttrs(nc.attrs), keys)
    {
      ghost var before, found := metadata.globalAttrs, ReadAttrs(nc.attrs);
      for i := 0 to |keys|
        invariant AllOf(keys[..i], ReadableAttrNames(nc.attrs))
        invariant metadata.globalAttrs == AddAll(before, found, keys[..i])
      {
        var value := ReadAttr(nc.attrs[keys[i]]);
        NextOf(keys, ReadableAttrNames(nc.attrs), i);
        if value.None? { return false; }
        AddNext(before, found, keys, i);
        metadata.AddGlobalAttr(keys[i], value.value);
      }
      assert keys[..|keys|] == keys;
      ok := true;
    }

    method ReadAttributes(metadata: Metadata) returns (ok: bool)
      modifies metadata`globalAttrs
      ensures ok == ReadableAttrs(nc.attrs)
      ensures ok ==> metadata.globalAttrs == ReadAttrs(nc.attrs) + old(metadata.globalAttrs)
    {
      SortedHasKeys(nc.attrs.Keys);
      AllOfSorted(nc.attrs.Keys, ReadableAttrNames(nc.attrs));
      AddEverything(metadata.globalAttrs, ReadAttrs(nc.attrs));
      ok := ReadAttributesInTurn(metadata, Sorted(nc.attrs.Keys));
    }

    /** Everything but the data, added to what the metadata already holds. */
    method ReadMetadata(metadata: Metadata) returns (ok: bool)
      requires metadata.Valid() && nc.DimsKnown()
      modifies metadata
      ensures metadata.Valid() && ok == Readable(nc)
      ensures ok ==> metadata.View() == MetaWith(old(metadata.View()), nc)
      ensures fresh(metadata.variables.Values - old(metadata.variables.Values))
    {
      ReadDimensions(metadata);
      ok := ReadVariables(metadata);
      if !ok { return; }
      ok := ReadAttributes(metadata);
    }

    method WriteDimensions(metadata: Metadata)
      modifies this
      ensures nc == old(nc).(dims := metadata.dimensions + old(nc).dims)
    {
      var keys := Sorted(metadata.dimensions.Keys);
      SortedHasKeys(metadata.dimensions.Keys);
      ghost var was := nc;
      for i := 0 to |keys|
        invariant nc == was.(dims := AddAll(was.dims, metadata.dimensions, keys[..i]))
      {
        AddNext(was.dims, metadata.dimensions, keys, i);
        if keys[i] !in nc.dims { nc := nc.(dims := nc.dims[keys[i] := metadata.dimensions[keys[i]]]); }
      }
      assert keys[..|keys|] == keys;
      AddEverything(was.dims, metadata.dimensions);
    }

    /** Attributes of a variable are written when the variable is added. */
    method AddVariable(v: Variable) returns (ok: bool)
      requires v.name !in nc.vars
      modifies this
      ensures ok == Defines(old(nc).dims, DimNames(v.dimensions))
      ensures ok ==> nc == old(nc).(vars := old(nc).vars[v.name := NewVar(old(nc).dims, v.View())])
    {
      var names, typ := DimNames(v.dimensions), WriteType(v.typ);
      if !Defines(nc.dims, names) { return false; }
      var fill := seq(Hyperslab.TotalSize(Shape(nc.dims, names)), _ => FillValue(typ));
      nc := nc.(vars := nc.vars[v.name := NcVar(typ, names, WriteAttrs(v.attributes), fill)]);
      ok := true;
    }

    /** A variable the file does not have is added. */
    method WriteVariable(v: Variable) returns (ok: bool)
      modifies this
      ensures ok == (v.name in old(nc).vars || Defines(old(nc).dims, DimNames(v.dimensions)))
      ensures ok ==> nc == old(nc).(vars := IfAbsent(old(nc).vars, v.name, NewVar(old(nc).dims, v.View())))
    {
      ok := true;
      if v.name !in nc.vars { ok := AddVariable(v); }
    }

    method WriteVariablesInTurn(metadata: Metadata, keys: seq<string>) returns (ok: bool)
      requires metadata.Valid() && (forall k :: k in keys ==> k in metadata.variables)
      modifies this
      ensures ok == AllOf(keys, AddableNames(old(nc), old(ViewsOf(metadata.variables))))
      ensures ok ==>
                nc == old(nc).(vars := AddAll(old(nc).vars, NewVars(old(nc).dims, old(ViewsOf(metadata.variables))),
                                              keys))
    {
      ghost var was, views := nc, ViewsOf(metadata.variables);
      for i := 0 to |keys|
        invariant nc == was.(vars := AddAll(was.vars, NewVars(was.dims, views), keys[..i]))
        invariant AllOf(keys[..i], AddableNames(was, views))
      {
        AddNext(was.vars, NewVars(was.dims, views), keys, i);
        AddAllKeys(was.vars, NewVars(was.dims, views), keys[..i]);
        ok := WriteVariable(metadata.variables[keys[i]]);
        NextOf(keys, AddableNames(was, views), i);
        AllOfIs(keys[..i], AddableNames(was, views));
        assert ok == (keys[i] in AddableNames(was, views));
        if !ok { return; }
      }
      assert keys[..|keys|] == keys;
      ok := true;
    }

    method WriteVariables(metadata: Metadata) returns (ok: bool)
      requires metadata.Valid()
      modifies this
      ensures ok == (metadata.variables.Keys <= AddableNames(old(nc), old(ViewsOf(metadata.variables))))
      ensures ok ==> nc == old(nc).(vars := NewVars(old(nc).dims, old(ViewsOf(metadata.variables))) + old(nc).vars)
    {
      var keys := Sorted(metadata.variables.Keys);
      SortedHasKeys(metadata.variables.Keys);
      ghost var views := ViewsOf(metadata.variables);
      AllOfSorted(metadata.variables.Keys, AddableNames(nc, views));
      AddEverything(nc.vars, NewVars(nc.dims, views));
      ok := WriteVariablesInTurn(metadata, keys);
    }

    method WriteAttributes(metadata: Metadata)
      modifies this
      ensures nc == old(nc).(attrs := WriteAttrs(metadata.globalAttrs) + old(nc).attrs)
    {
      var keys := Sorted(metadata.globalAttrs.Keys);
      SortedHasKeys(metadata.globalAttrs.Keys);
      ghost var was, found := nc, WriteAttrs(metadata.globalAttrs);
      for i := 0 to |keys|
        invariant nc == was.(attrs := AddAll(was.attrs, found, keys[..i]))
      {
        AddNext(was.attrs, found, keys, i);
        if keys[i] !in nc.attrs { nc := nc.(attrs := nc.attrs[keys[i] := WriteAttr(metadata.globalAttrs[keys[i]])]); }
      }
      assert keys[..|keys|] == keys;
      AddEverything(was.attrs, found);
    }

    /** Everything but the data, as far as the file does not have it yet. */
    method WriteMetadata(metadata: Metadata) returns (ok: bool)
      requires metadata.Valid()
      modifies this
      ensures ok == Writable(old(nc), old(metadata.View()))
      ensures ok ==> nc == FileWith(old(nc), old(metadata.View()))
    {
      ghost var views := ViewsOf(metadata.variables);
      WriteDimensions(metadata);
      assert ViewsOf(metadata.variables) == views;
      ok := WriteVariables(metadata);
      if !ok { return; }
      WriteAttributes(metadata);
    }

    method WriteSingleDatum(varName: string, c: Container) returns (ok: bool)
      modifies this
      ensures ok == (varName in old(nc).vars && CanFill(old(nc).vars[varName], c))
      ensures nc == if ok then old(nc).(vars := old(nc).vars[varName := Filled(old(nc).vars[varName], c)]) else old(nc)
    {
      ok := varName in nc.vars && CanFill(nc.vars[varName], c);
      if ok { nc := nc.(vars := nc.vars[varName := Filled(nc.vars[varName], c)]); }
    }

    method ReadSingleDatum(varName: string, typ: DataType, size: nat) returns (r: Option<seq<real>>)
      ensures r == Datum(nc, varName, typ, size)
    {
      r := Datum(nc, varName, typ, size);
    }

    method ReadFieldDatum(varName: string, typ: DataType, start: seq<nat>, count: seq<nat>, size: nat)
      returns (r: Option<seq<real>>)
      requires nc.Valid()
      ensures r == SlabDatum(nc, varName, typ, start, count, size)
    {
      r := SlabDatum(nc, varName, typ, start, count, size);
    }
  }
}
