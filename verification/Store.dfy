/** The store of what is known about a file: variables, metadata and data
    (src/monio/Variable.cc, Metadata.cc, Data.cc, FileData.cc). Values first, then the
    classes. Containers and attributes are never changed once stored; variables are
    objects, shared between copies of a FileData, and do change. */
module Store {
  import opened SortedKeys
  import opened AddIfAbsent
  import Hyperslab

  const NOT_FOUND := "NOT_FOUND"

  datatype DataType = IntType | FloatType | DoubleType

  datatype Attribute = IntAttr(i: int) | DoubleAttr(r: real) | StringAttr(s: string)

  type Dimensions = Hyperslab.Dimensions

  datatype VariableView = VariableView(
    name: string, typ: DataType, dims: Dimensions, attrs: map<string, Attribute>)
  {
    function TotalSize(): nat { Hyperslab.TotalSize(dims) }
    function WithoutDimension(dimName: string): VariableView { this.(dims := Without(dims, dimName)) }
  }

  datatype Meta = Meta(dims: map<string, nat>, vars: map<string, VariableView>, attrs: map<string, Attribute>)
  {
    function AddDimension(dimName: string, size: nat): Meta {
      this.(dims := IfAbsent(dims, dimName, size))
    }
    function AddVariable(v: VariableView): Meta {
      this.(vars := IfAbsent(vars, v.name, v))
    }
    function AddGlobalAttr(attrName: string, attr: Attribute): Meta {
      this.(attrs := IfAbsent(attrs, attrName, attr))
    }
    function DeleteDimension(dimName: string): Meta {
      Meta(dims - {dimName}, AllWithout(vars, dimName), attrs)
    }
    /** Every dimension a variable lists is defined with the same size. */
    ghost predicate Consistent() {
      forall k, i :: k in vars && 0 <= i < |vars[k].dims| ==>
        vars[k].dims[i].0 in dims && dims[vars[k].dims[i].0] == vars[k].dims[i].1
    }
  }

  function AllWithout(vars: map<string, VariableView>, dimName: string): (r: map<string, VariableView>)
    ensures r.Keys == vars.Keys
  {
    map k | k in vars :: vars[k].WithoutDimension(dimName)
  }

  /** The smallest name of a dimension of that size. */
  function DimensionName(dims: map<string, nat>, size: nat): string {
    var names := set k | k in dims && dims[k] == size;
    if names == {} then NOT_FOUND else Least(names)
  }

  const EMPTY_META := Meta(map[], map[], map[])

  datatype Container = Container(name: string, typ: DataType, data: seq<real>)

  type Containers = map<string, Container>

  function WithContainer(data: Containers, c: Container): Containers {
    IfAbsent(data, c.name, c)
  }

  datatype FileView = FileView(meta: Meta, data: Containers, lfricMap: seq<nat>, dateTimes: seq<int>)
  {
    function Cleared(): FileView {
      this.(meta := Meta(meta.dims, map[], map[]), data := map[])
    }
  }

  const EMPTY_FILE_VIEW := FileView(EMPTY_META, map[], [], [])

  predicate HasDim(dims: Dimensions, dimName: string) {
    exists i :: 0 <= i < |dims| && dims[i].0 == dimName
  }

  /** The list without its first entry of that name. */
  function Without(dims: Dimensions, dimName: string): Dimensions {
    if dims == [] then []
    else if dims[0].0 == dimName then dims[1..]
    else [dims[0]] + Without(dims[1..], dimName)
  }

  ghost predicate Unique(dims: Dimensions) { Hyperslab.UniqueNames(dims) }

  /** Nothing of that name is left, everything else is, in order. */
  lemma {:induction false} WithoutRemoves(dims: Dimensions, dimName: string)
    requires Unique(dims)
    ensures var r := Without(dims, dimName);
            && Unique(r) && !HasDim(r, dimName)
            && (forall d :: d in r <==> d in dims && d.0 != dimName)
    decreases |dims|
  {
    if dims != [] && dims[0].0 != dimName {
      WithoutRemoves(dims[1..], dimName);
      var r := Without(dims, dimName);
      forall i, j | 0 <= i < j < |r| ensures r[i].0 != r[j].0 {
        if i == 0 {
          assert r[j] in Without(dims[1..], dimName);
          assert r[j] in dims[1..];
        }
      }
    }
  }

  lemma WithoutAbsent(dims: Dimensions, dimName: string)
    requires !HasDim(dims, dimName)
    ensures Without(dims, dimName) == dims
  {
    if dims != [] {
      assert dims[0].0 != dimName;
      assert !HasDim(dims[1..], dimName) by {
        forall i | 0 <= i < |dims[1..]| ensures dims[1..][i].0 != dimName { assert dims[1..][i] == dims[i + 1]; }
      }
      WithoutAbsent(dims[1..], dimName);
    }
  }

  class Variable {
    const name: string
    const typ: DataType
    var dimensions: Dimensions
    var attributes: map<string, Attribute>

    constructor (name: string, typ: DataType)
      ensures Valid() && View() == VariableView(name, typ, [], map[])
    {
      this.name, this.typ, dimensions, attributes := name, typ, [], map[];
    }

    ghost predicate Valid()
      reads this
    {
      Unique(dimensions)
    }

    function View(): VariableView
      reads this
    {
      VariableView(name, typ, dimensions, attributes)
    }

    method GetTotalSize() returns (totalSize: nat)
      ensures totalSize == View().TotalSize()
    {
      totalSize := 1;
      for i := 0 to |dimensions|
        invariant totalSize == Hyperslab.TotalSize(dimensions[..i])
      {
        totalSize := totalSize * dimensions[i].1;
        Hyperslab.ProductSnoc(Hyperslab.Sizes(dimensions[..i]), dimensions[i].1);
        assert Hyperslab.Sizes(dimensions[..i + 1]) == Hyperslab.Sizes(dimensions[..i]) + [dimensions[i].1];
      }
      assert dimensions[..|dimensions|] == dimensions;
    }

    /** A name that is already listed is an error. */
    method AddDimension(dimName: string, size: nat) returns (ok: bool)
      requires Valid()
      modifies this
      ensures Valid() && ok == !HasDim(old(dimensions), dimName)
      ensures View() == old(View()).(dims := if ok then old(dimensions) + [(dimName, size)] else old(dimensions))
    {
      ok := !HasDim(dimensions, dimName);
      if ok { dimensions := dimensions + [(dimName, size)]; }
    }

    method AddAttribute(attrName: string, attr: Attribute) returns (ok: bool)
      requires Valid()
      modifies this
      ensures Valid() && ok == (attrName !in old(attributes))
      ensures View() == old(View()).(attrs := if ok then old(attributes)[attrName := attr] else old(attributes))
    {
      ok := attrName !in attributes;
      if ok { attributes := attributes[attrName := attr]; }
    }

    method SetAttributes(attrs: map<string, Attribute>)
      requires Valid()
      modifies this
      ensures Valid() && View() == old(View()).(attrs := attrs)
    {
      attributes := attrs;
    }

    /** A name that is not listed is no error. */
    method DeleteDimension(dimName: string)
      requires Valid()
      modifies this
      ensures Valid() && View() == old(View()).WithoutDimension(dimName)
    {
      WithoutRemoves(dimensions, dimName);
      dimensions := Without(dimensions, dimName);
    }
  }

  function ViewsOf(variables: map<string, Variable>): (r: map<string, VariableView>)
    reads variables.Values
    ensures r.Keys == variables.Keys
  {
    map k | k in variables :: variables[k].View()
  }

  ghost predicate AllValid(variables: map<string, Variable>)
    reads variables.Values
  {
    forall k :: k in variables ==> variables[k].Valid() && variables[k].name == k
  }

  class Metadata {
    var dimensions: map<string, nat>
    var globalAttrs: map<string, Attribute>
    var variables: map<string, Variable>

    constructor ()
      ensures Valid() && View() == EMPTY_META && variables == map[]
    {
      dimensions, globalAttrs, variables := map[], map[], map[];
    }

    /** A copy: its own maps, the same variables. */
    constructor Copy(other: Metadata)
      requires other.Valid()
      ensures Valid() && View() == other.View() && variables == other.variables
    {
      dimensions, globalAttrs, variables := other.dimensions, other.globalAttrs, other.variables;
    }

    ghost predicate Valid()
      reads this, variables.Values
    {
      AllValid(variables)
    }

    function View(): Meta
      reads this, variables.Values
    {
      Meta(dimensions, ViewsOf(variables), globalAttrs)
    }

    method AddDimension(dimName: string, value: nat)
      modifies this`dimensions
      ensures dimensions == IfAbsent(old(dimensions), dimName, value)
    {
      if dimName !in dimensions { dimensions := dimensions[dimName := value]; }
    }

    method AddGlobalAttr(attrName: string, attr: Attribute)
      modifies this`globalAttrs
      ensures globalAttrs == IfAbsent(old(globalAttrs), attrName, attr)
    {
      if attrName !in globalAttrs { globalAttrs := globalAttrs[attrName := attr]; }
    }

    method AddVariable(v: Variable)
      requires Valid() && v.Valid()
      modifies this`variables
      ensures Valid() && variables == IfAbsent(old(variables), v.name, v)
      ensures ViewsOf(variables) == IfAbsent(old(ViewsOf(variables)), v.name, v.View())
    {
      if v.name !in variables { variables := variables[v.name := v]; }
    }

    /** The first name, in key order, of a dimension of that size. */
    method GetDimensionName(dimValue: nat) returns (r: string)
      ensures r == DimensionName(dimensions, dimValue)
    {
      var keys := Sorted(dimensions.Keys);
      SortedHasKeys(dimensions.Keys);
      ghost var names := set k | k in dimensions && dimensions[k] == dimValue;
      for i := 0 to |keys|
        invariant forall h :: 0 <= h < i ==> keys[h] in dimensions && dimensions[keys[h]] != dimValue
      {
        assert keys[i] in dimensions;
        if dimensions[keys[i]] == dimValue {
          forall k | k in names ensures k == keys[i] || Less(keys[i], k) {
            var h :| 0 <= h < |keys| && keys[h] == k;
            if i < h { SortedAscends(dimensions.Keys, i, h); }
          }
          assert keys[i] in names;
          LeastIsUnique(names, keys[i], Least(names));
          return keys[i];
        }
      }
      assert forall k :: k in dimensions ==> dimensions[k] != dimValue;
      return NOT_FOUND;
    }

    method DeleteFromVariables(dimName: string)
      requires Valid()
      modifies variables.Values
      ensures Valid() && forall k :: k in variables ==>
                variables[k].View() == old(variables[k].View()).WithoutDimension(dimName)
    {
      var rest := variables.Keys;
      ghost var was := ViewsOf(variables);
      while rest != {}
        invariant rest <= variables.Keys
        invariant forall k :: k in variables ==> variables[k].Valid()
        invariant forall k :: k in variables ==>
                    variables[k].View() == if k in rest then was[k] else was[k].WithoutDimension(dimName)
        decreases |rest|
      {
        var k :| k in rest;
        variables[k].DeleteDimension(dimName);
        rest := rest - {k};
      }
    }

    /** Every variable loses the dimension, also where another copy of the metadata
        shares it. */
    method DeleteDimension(dimName: string)
      requires Valid()
      modifies this, variables.Values
      ensures Valid() && View() == old(View()).DeleteDimension(dimName) && variables == old(variables)
    {
      ghost var views := ViewsOf(variables);
      dimensions := dimensions - {dimName};
      assert ViewsOf(variables) == views;
      DeleteFromVariables(dimName);
      assert ViewsOf(variables) == AllWithout(views, dimName);
    }

    /** A variable that is not there is an error. */
    method DeleteVariable(varName: string) returns (ok: bool)
      requires Valid()
      modifies this`variables
      ensures Valid() && ok == (varName in old(variables)) && variables == old(variables) - {varName}
    {
      ok := varName in variables;
      variables := variables - {varName};
    }

    /** Dimensions stay: later variables need them. */
    method Clear()
      requires Valid()
      modifies this
      ensures Valid() && variables == map[] && View() == Meta(old(dimensions), map[], map[])
    {
      variables, globalAttrs := map[], map[];
    }

    method ClearGlobalAttributes()
      requires Valid()
      modifies this
      ensures Valid() && View() == old(View()).(attrs := map[]) && variables == old(variables)
    {
      globalAttrs := map[];
    }
  }

  class Data {
    var containers: Containers

    constructor ()
      ensures containers == map[]
    {
      containers := map[];
    }

    constructor Copy(other: Data)
      ensures containers == other.containers
    {
      containers := other.containers;
    }

    /** A container whose name is taken is dropped without a word. */
    method AddContainer(c: Container)
      modifies this
      ensures containers == WithContainer(old(containers), c)
    {
      if c.name !in containers { containers := containers[c.name := c]; }
    }

    method DeleteContainer(name: string)
      modifies this
      ensures containers == old(containers) - {name}
    {
      containers := containers - {name};
    }

    method Clear()
      modifies this
      ensures containers == map[]
    {
      containers := map[];
    }
  }

  class FileData {
    const data: Data
    const metadata: Metadata
    var lfricAtlasMap: seq<nat>
    var dateTimes: seq<int>

    constructor ()
      ensures Valid() && View() == EMPTY_FILE_VIEW && fresh(data) && fresh(metadata) && metadata.variables == map[]
    {
      data := new Data();
      metadata := new Metadata();
      lfricAtlasMap, dateTimes := [], [];
    }

    /** What getFileData returns: own maps, own lists, shared variables. */
    constructor Copy(other: FileData)
      requires other.Valid()
      ensures Valid() && View() == other.View() && fresh(data) && fresh(metadata)
      ensures metadata.variables == other.metadata.variables
    {
      data := new Data.Copy(other.data);
      metadata := new Metadata.Copy(other.metadata);
      lfricAtlasMap, dateTimes := other.lfricAtlasMap, other.dateTimes;
    }

    ghost predicate Valid()
      reads this, metadata, metadata.variables.Values
    {
      metadata.Valid()
    }

    function View(): FileView
      reads this, data, metadata, metadata.variables.Values
    {
      FileView(metadata.View(), data.containers, lfricAtlasMap, dateTimes)
    }

    method ClearData()
      requires Valid()
      modifies data, metadata
      ensures Valid() && View() == old(View()).Cleared() && metadata.variables == map[]
    {
      metadata.Clear();
      data.Clear();
    }

    method SetLfricAtlasMap(m: seq<nat>)
      requires Valid()
      modifies this
      ensures Valid() && View() == old(View()).(lfricMap := m)
    {
      lfricAtlasMap := m;
    }

    method SetDateTimes(d: seq<int>)
      requires Valid()
      modifies this
      ensures Valid() && View() == old(View()).(dateTimes := d)
    {
      dateTimes := d;
    }
  }
}
