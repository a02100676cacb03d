/** From a field to metadata and data ready to be written (src/monio/AtlasWriter.cc). */
module FieldWriter {
  import opened Options
  import opened AddIfAbsent
  import opened Store
  import opened DataOrder
  import Hyperslab

  datatype FieldMetadata = FieldMetadata(
    lfricReadName: string, lfricWriteName: string, jediName: string,
    lfricVertConfig: string, jediVertConfig: string, units: string, noFirstLevel: bool)

  const MISSING_VARIABLE_NAMES := ["TO BE DERIVED", "TO BE IMPLEMENTED", "none"]

  datatype FieldView = FieldView(name: string, typ: DataType, points: nat, levels: nat, cells: Cells)
  {
    ghost predicate Valid() { Shaped(cells, points, levels) }
  }

  class Field {
    const name: string
    const typ: DataType
    const values: array2<real>

    constructor (name: string, typ: DataType, values: array2<real>)
      ensures this.name == name && this.typ == typ && this.values == values
    {
      this.name, this.typ, this.values := name, typ, values;
    }

    ghost function View(): (v: FieldView)
      reads values
      ensures v.Valid()
    {
      FieldView(name, typ, values.Length0, values.Length1, CellsOf(values))
    }
  }

  // ---------------------------------------------------------------------------
  // The field as it is written
  // ---------------------------------------------------------------------------

  /** For the LFRic convention: a field without the surface level gets a copy of its
      lowest; full levels without a surface level, or no name to write, are errors. */
  ghost function WriteField(field: FieldView, writeName: string, noFirstLevel: bool): (r: Option<FieldView>)
    requires field.Valid()
    ensures r.Some? ==> r.value.Valid() && r.value.points == field.points && r.value.typ == field.typ
  {
    if noFirstLevel && field.levels == FULL_LEVELS then None
    else if writeName in MISSING_VARIABLE_NAMES then None
    else if noFirstLevel && field.levels == HALF_LEVELS then
      Some(FieldView(writeName, field.typ, field.points, FULL_LEVELS, WithSurface(field.cells)))
    else Some(field.(name := writeName))
  }

  method GetWriteField(field: Field, writeName: string, noFirstLevel: bool) returns (r: Field, ok: bool)
    ensures ok == WriteField(old(field.View()), writeName, noFirstLevel).Some?
    ensures ok ==> r.View() == WriteField(old(field.View()), writeName, noFirstLevel).value
  {
    r, ok := field, false;
    if noFirstLevel && field.values.Length1 == FULL_LEVELS { return; }
    if writeName in MISSING_VARIABLE_NAMES { return; }
    ok := true;
    if noFirstLevel && field.values.Length1 == HALF_LEVELS {
      var copied := CopySurfaceLevel(field.values);
      r := new Field(writeName, field.typ, copied);
    } else {
      r := new Field(writeName, field.typ, field.values);
    }
  }

  // ---------------------------------------------------------------------------
  // Dimensions of a variable, found by size
  // ---------------------------------------------------------------------------

  /** The name for a size: the field's own vertical dimension where it has that size. */
  function DimNameFor(defined: map<string, nat>, size: nat, vertConfigName: string): string {
    if vertConfigName != "" && vertConfigName in defined && size == defined[vertConfigName] then vertConfigName
    else DimensionName(defined, size)
  }

  /** One dimension more for each size that has a name; a repeated name is an error. */
  function ListDims(defined: map<string, nat>, sizes: seq<nat>, vertConfigName: string): Option<Dimensions> {
    if sizes == [] then Some([])
    else
      var n := |sizes| - 1;
      var dimName := DimNameFor(defined, sizes[n], vertConfigName);
      match ListDims(defined, sizes[..n], vertConfigName)
      case None => None
      case Some(dims) =>
        if dimName == NOT_FOUND then Some(dims)
        else if HasDim(dims, dimName) then None
        else Some(dims + [(dimName, sizes[n])])
  }

  method NameDimension(metadata: Metadata, dimSize: nat, vertConfigName: string) returns (dimName: string)
    ensures dimName == DimNameFor(metadata.dimensions, dimSize, vertConfigName)
  {
    if vertConfigName != "" && vertConfigName in metadata.dimensions && dimSize == metadata.dimensions[vertConfigName] {
      dimName := vertConfigName;
    } else {
      dimName := metadata.GetDimensionName(dimSize);
    }
  }

  method AddVariableDimensions(metadata: Metadata, v: Variable, shape: seq<nat>, vertConfigName: string)
    returns (ok: bool)
    requires v.Valid() && v.dimensions == []
    modifies v
    ensures v.Valid() && ok == ListDims(metadata.dimensions, Reversed(shape), vertConfigName).Some?
    ensures ok ==>
              v.View() == old(v.View()).(dims := ListDims(metadata.dimensions, Reversed(shape), vertConfigName).value)
  {
    var sizes := Reversed(shape);
    ghost var defined := metadata.dimensions;
    for i := 0 to |sizes|
      invariant v.Valid() && metadata.dimensions == defined && v.attributes == old(v.attributes)
      invariant ListDims(defined, sizes[..i], vertConfigName) == Some(v.dimensions)
    {
      assert sizes[..i + 1][..i] == sizes[..i];
      var dimName := NameDimension(metadata, sizes[i], vertConfigName);
      if dimName != NOT_FOUND {
        ok := v.AddDimension(dimName, sizes[i]);
        if !ok {
          ListDimsFails(defined, sizes, vertConfigName, i + 1);
          return;
        }
      }
    }
    assert sizes[..|sizes|] == sizes;
    ok := true;
  }

  lemma {:induction false} ListDimsFails(defined: map<string, nat>, sizes: seq<nat>, vertConfigName: string, i: nat)
    requires i <= |sizes| && ListDims(defined, sizes[..i], vertConfigName).None?
    ensures ListDims(defined, sizes, vertConfigName).None?
    decreases |sizes|
  {
    if i < |sizes| {
      assert sizes[..|sizes| - 1][..i] == sizes[..i];
      ListDimsFails(defined, sizes[..|sizes| - 1], vertConfigName, i);
    } else {
      assert sizes[..i] == sizes;
    }
  }

  function Reversed(s: seq<nat>): (r: seq<nat>)
    ensures |r| == |s| && forall i :: 0 <= i < |s| ==> r[i] == s[|s| - 1 - i]
  {
    seq(|s|, i requires 0 <= i < |s| => s[|s| - 1 - i])
  }

  /** The size has a name, or is one and needs none. */
  predicate SizeKnown(defined: map<string, nat>, size: nat, vertConfigName: string) {
    size == 1 || DimNameFor(defined, size, vertConfigName) != NOT_FOUND
  }

  lemma DimNameIsRight(defined: map<string, nat>, size: nat, vertConfigName: string)
    ensures var dimName := DimNameFor(defined, size, vertConfigName);
            dimName != NOT_FOUND ==> dimName in defined && defined[dimName] == size
  {
  }

  /** The variable lists different dimensions of the metadata with their own sizes. */
  lemma {:induction false} ListedDimsExist(defined: map<string, nat>, sizes: seq<nat>, vertConfigName: string)
    requires ListDims(defined, sizes, vertConfigName).Some?
    ensures var dims := ListDims(defined, sizes, vertConfigName).value;
            Unique(dims) && forall d :: d in dims ==> d.0 in defined && defined[d.0] == d.1
  {
    if sizes != [] {
      var n := |sizes| - 1;
      ListedDimsExist(defined, sizes[..n], vertConfigName);
      DimNameIsRight(defined, sizes[n], vertConfigName);
    }
  }

  /** When every size is known, the variable is as large as the field, also where
      dimensions share a size. */
  lemma {:induction false} ListedDimsFit(defined: map<string, nat>, sizes: seq<nat>, vertConfigName: string)
    requires ListDims(defined, sizes, vertConfigName).Some?
    requires forall i :: 0 <= i < |sizes| ==> SizeKnown(defined, sizes[i], vertConfigName)
    ensures Hyperslab.TotalSize(ListDims(defined, sizes, vertConfigName).value) == Hyperslab.Product(sizes)
  {
    if sizes != [] {
      var n := |sizes| - 1;
      var shorter, size := sizes[..n], sizes[n];
      ListedDimsFit(defined, shorter, vertConfigName);
      assert Hyperslab.Product(sizes) == Hyperslab.Product(shorter) * size by {
        Hyperslab.ProductSnoc(shorter, size);
        assert shorter + [size] == sizes;
      }
      var dimName := DimNameFor(defined, size, vertConfigName);
      if dimName != NOT_FOUND {
        SizesSnoc(ListDims(defined, shorter, vertConfigName).value, (dimName, size));
      }
    }
  }

  lemma SizesSnoc(dims: Dimensions, d: (string, nat))
    ensures Hyperslab.TotalSize(dims + [d]) == Hyperslab.TotalSize(dims) * d.1
  {
    Hyperslab.ProductSnoc(Hyperslab.Sizes(dims), d.1);
    assert Hyperslab.Sizes(dims + [d]) == Hyperslab.Sizes(dims) + [d.1];
  }

  // ---------------------------------------------------------------------------
  // Metadata and data of a field
  // ---------------------------------------------------------------------------

  function IncrementAttrs(md: FieldMetadata): map<string, Attribute> {
    map[
      "standard_name" := StringAttr(md.jediName),
      "long_name" := StringAttr(md.jediName + "_inc"),
      "units" := StringAttr(md.units),
      "mesh" := StringAttr("Mesh2d"),
      "location" := StringAttr("face"),
      "online_operation" := StringAttr("instant"),
      "interval_operation" := StringAttr("3600 s"),
      "interval_write" := StringAttr("3600 s"),
      "cell_methods" := StringAttr("time: point"),
      "coordinates" := StringAttr("Mesh2d_face_y Mesh2d_face_x")
    ]
  }

  const CONVENTION_NAME := "variable_convention"
  const PRODUCED_BY_NAME := "produced_by"
  const PRODUCED_BY := "MONIO: Met Office NetCDF I/O"

  function ConventionValue(isLfricConvention: bool): string { if isLfricConvention then "LFRic" else "JEDI" }

  function WithGlobalAttributes(attrs: map<string, Attribute>, isLfricConvention: bool): map<string, Attribute> {
    IfAbsent(IfAbsent(attrs, CONVENTION_NAME, StringAttr(ConventionValue(isLfricConvention))),
             PRODUCED_BY_NAME, StringAttr(PRODUCED_BY))
  }

  ghost function FieldVariable(defined: map<string, nat>, field: FieldView, md: FieldMetadata, varName: string,
                               vertConfigName: string): Option<VariableView>
  {
    match ListDims(defined, [field.levels, field.points], vertConfigName)
    case None => None
    case Some(dims) => Some(VariableView(varName, field.typ, dims, IncrementAttrs(md)))
  }

  method BuildFieldVariable(metadata: Metadata, field: Field, md: FieldMetadata, varName: string,
                            vertConfigName: string)
    returns (v: Variable, ok: bool)
    ensures fresh(v) && v.Valid() && v.name == varName
    ensures var expected := FieldVariable(metadata.dimensions, field.View(), md, varName, vertConfigName);
            ok == expected.Some? && (ok ==> v.View() == expected.value)
  {
    v := new Variable(varName, field.typ);
    var shape := [field.values.Length0, field.values.Length1];
    assert Reversed(shape) == [field.values.Length1, field.values.Length0];
    ok := AddVariableDimensions(metadata, v, shape, vertConfigName);
    if ok { v.SetAttributes(IncrementAttrs(md)); }
  }

  method PopulateMetadataWithField(metadata: Metadata, field: Field, md: FieldMetadata, varName: string,
                                   vertConfigName: string)
    returns (ok: bool)
    requires metadata.Valid()
    modifies metadata`variables
    ensures metadata.Valid()
    ensures var v := FieldVariable(metadata.dimensions, old(field.View()), md, varName, vertConfigName);
            ok == v.Some? &&
            (ok ==> ViewsOf(metadata.variables) == IfAbsent(old(ViewsOf(metadata.variables)), varName, v.value))
    ensures fresh(metadata.variables.Values - old(metadata.variables.Values))
  {
    ghost var views := ViewsOf(metadata.variables);
    var v;
    v, ok := BuildFieldVariable(metadata, field, md, varName, vertConfigName);
    assert ViewsOf(metadata.variables) == views;
    if ok { metadata.AddVariable(v); }
  }

  /** The container; a field of another size than the map is an error. */
  ghost function FieldContainer(m: Map, field: FieldView, fieldName: string): Option<Store.Container>
    requires field.Valid() && InRange(m)
  {
    if |m| * field.levels != field.points * field.levels then None
    else if field.levels == 0 then Some(Store.Container(fieldName, field.typ, []))
    else
      SameRows(|m|, field.points, field.levels);
      Some(Store.Container(fieldName, field.typ, DataOrder.Container(m, field.cells, field.levels)))
  }

  lemma SameRows(a: nat, b: nat, levels: nat)
    requires levels > 0 && a * levels == b * levels
    ensures a == b
  {
    MulOrder(a + 1, b, levels);
    MulOrder(b + 1, a, levels);
  }

  method PopulateDataContainer(field: Field, m: Map, fieldName: string) returns (c: Option<Store.Container>)
    requires InRange(m)
    ensures c == FieldContainer(m, field.View(), fieldName)
  {
    var fieldSize := field.values.Length0 * field.values.Length1;
    var dataVec := new real[fieldSize](_ => 0.0);
    if field.values.Length1 > 0 && |m| * field.values.Length1 == fieldSize {
      SameRows(|m|, field.values.Length0, field.values.Length1);
    }
    var r := PopulateDataVec(dataVec, field.values, m);
    if r.Thrown? { return None; }
    if field.values.Length1 > 0 {
      LoopsMakeContainer(dataVec[..], seq(fieldSize, _ => 0.0), m, CellsOf(field.values), field.values.Length1);
    }
    return Some(Store.Container(fieldName, field.typ, dataVec[..]));
  }

  // ---------------------------------------------------------------------------
  // One field, ready to be written
  // ---------------------------------------------------------------------------

  ghost function MetaWithField(m: Meta, written: FieldView, md: FieldMetadata, writeName: string,
                               vertConfigName: string, isLfricConvention: bool): Option<Meta>
  {
    match FieldVariable(m.dims, written, md, writeName, vertConfigName)
    case None => None
    case Some(v) =>
      Some(Meta(m.dims, IfAbsent(m.vars, writeName, v), WithGlobalAttributes(m.attrs, isLfricConvention)))
  }

  /** The store with the field's variable, container and the global attributes added. */
  ghost function PopulatedWith(fv: FileView, written: FieldView, md: FieldMetadata, writeName: string,
                               vertConfigName: string, isLfricConvention: bool): Option<FileView>
    requires written.Valid() && InRange(fv.lfricMap)
  {
    var m := MetaWithField(fv.meta, written, md, writeName, vertConfigName, isLfricConvention);
    var c := FieldContainer(fv.lfricMap, written, writeName);
    if m.None? || c.None? then None
    else Some(fv.(meta := m.value, data := IfAbsent(fv.data, writeName, c.value)))
  }

  ghost function ToWrite(field: FieldView, writeName: string, noFirstLevel: bool, isLfricConvention: bool)
    : (r: Option<FieldView>)
    requires field.Valid()
    ensures r.Some? ==> r.value.Valid() && r.value.points == field.points && r.value.typ == field.typ
  {
    if isLfricConvention then WriteField(field, writeName, noFirstLevel) else Some(field)
  }

  ghost function Populated(fv: FileView, field: FieldView, md: FieldMetadata, writeName: string,
                           vertConfigName: string, isLfricConvention: bool): Option<FileView>
    requires field.Valid() && InRange(fv.lfricMap)
  {
    match ToWrite(field, writeName, md.noFirstLevel, isLfricConvention)
    case None => None
    case Some(written) => PopulatedWith(fv, written, md, writeName, vertConfigName, isLfricConvention)
  }

  method AddGlobalAttributes(metadata: Metadata, isLfricConvention: bool)
    modifies metadata`globalAttrs
    ensures metadata.globalAttrs == WithGlobalAttributes(old(metadata.globalAttrs), isLfricConvention)
  {
    metadata.AddGlobalAttr(CONVENTION_NAME, StringAttr(ConventionValue(isLfricConvention)));
    metadata.AddGlobalAttr(PRODUCED_BY_NAME, StringAttr(PRODUCED_BY));
  }

  method AddFieldMetadata(metadata: Metadata, writeField: Field, md: FieldMetadata, writeName: string,
                          vertConfigName: string, isLfricConvention: bool) returns (ok: bool)
    requires metadata.Valid()
    modifies metadata`variables, metadata`globalAttrs
    ensures metadata.Valid()
    ensures fresh(metadata.variables.Values - old(metadata.variables.Values))
    ensures var m :=
              MetaWithField(old(metadata.View()), old(writeField.View()), md, writeName, vertConfigName,
                            isLfricConvention);
            ok == m.Some? && (ok ==> metadata.View() == m.value)
  {
    ok := PopulateMetadataWithField(metadata, writeField, md, writeName, vertConfigName);
    if ok {
      ghost var views := ViewsOf(metadata.variables);
      AddGlobalAttributes(metadata, isLfricConvention);
      assert ViewsOf(metadata.variables) == views;
    }
  }

  method PopulateFileDataWith(fileData: FileData, writeField: Field, md: FieldMetadata, writeName: string,
                              vertConfigName: string, isLfricConvention: bool) returns (ok: bool)
    requires fileData.Valid() && InRange(fileData.lfricAtlasMap)
    modifies fileData.metadata`variables, fileData.metadata`globalAttrs, fileData.data
    ensures fileData.Valid()
    ensures fresh(fileData.metadata.variables.Values - old(fileData.metadata.variables.Values))
    ensures var p :=
              PopulatedWith(old(fileData.View()), old(writeField.View()), md, writeName, vertConfigName,
                            isLfricConvention);
            ok == p.Some? && (ok ==> fileData.View() == p.value)
  {
    ghost var m, written := fileData.metadata.View(), writeField.View();
    var c := PopulateDataContainer(writeField, fileData.lfricAtlasMap, writeName);
    if c.None? { return false; }
    fileData.data.AddContainer(c.value);
    assert fileData.metadata.View() == m && writeField.View() == written;
    ghost var containers := fileData.data.containers;
    ok := AddFieldMetadata(fileData.metadata, writeField, md, writeName, vertConfigName, isLfricConvention);
    assert fileData.data.containers == containers;
  }

  method ChooseWriteField(field: Field, writeName: string, noFirstLevel: bool, isLfricConvention: bool)
    returns (r: Field, ok: bool)
    ensures var w := ToWrite(old(field.View()), writeName, noFirstLevel, isLfricConvention);
            ok == w.Some? && (ok ==> r.View() == w.value)
  {
    r, ok := field, true;
    if isLfricConvention { r, ok := GetWriteField(field, writeName, noFirstLevel); }
  }

  method PopulateFileDataWithField(fileData: FileData, field: Field, md: FieldMetadata, writeName: string,
                                   vertConfigName: string, isLfricConvention: bool) returns (ok: bool)
    requires fileData.Valid() && InRange(fileData.lfricAtlasMap)
    modifies fileData.metadata`variables, fileData.metadata`globalAttrs, fileData.data
    ensures fileData.Valid()
    ensures fresh(fileData.metadata.variables.Values - old(fileData.metadata.variables.Values))
    ensures var p :=
              Populated(old(fileData.View()), old(field.View()), md, writeName, vertConfigName, isLfricConvention);
            ok == p.Some? && (ok ==> fileData.View() == p.value)
  {
    ghost var fv := fileData.View();
    var writeField;
    writeField, ok := ChooseWriteField(field, writeName, md.noFirstLevel, isLfricConvention);
    if !ok { return; }
    assert fileData.View() == fv;
    ok := PopulateFileDataWith(fileData, writeField, md, writeName, vertConfigName, isLfricConvention);
  }
}
