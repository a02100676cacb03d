/** A smallest case of the round trip: one point, two levels, one field. It shows that
    what RoundTrip asks of a file and of fields can be met, and an increment that is lost. */
module Smallest {
  import opened Options
  import opened Store
  import opened NetCdf
  import opened DataOrder
  import opened FieldWriter
  import opened WriteRun
  import opened NearestMap
  import opened FileInit
  import opened FileSetup
  import opened DateTimes
  import opened FieldReader
  import opened RoundTrip
  import FileCopy
  import Hyperslab
  import Increments

  const DIMS := map["cells" := 1, "levels" := 2]
  const LEVELS_VAR := NcVar(NcDouble, ["levels"], map[], [1.0, 2.0])
  const COORD_VAR := NcVar(NcFloat, ["cells"], map[], [0.0])
  const INPUT :=
    NcFile(DIMS,
           map[VERT_FULL_NAME := LEVELS_VAR, VERT_HALF_NAME := LEVELS_VAR, FACE_X := COORD_VAR, FACE_Y := COORD_VAR],
           map[])
  const GRID := [Point(0.0, 0.0)]
  const NAME := "t"
  const INFO := FieldMetadata(NAME, NAME, NAME, "", "", "K", false)
  const VALUES := FieldView(NAME, DoubleType, 1, 2, [[5.0, 6.0]])
  const FIELDS := map[NAME := VALUES]
  const LFRIC_STATE := Convention(true, true)

  // The eastward wind as test/testinput/state_full.yaml names it (line 7).
  const WIND_NAME := "eastward_wind"
  const WIND_INFO := FieldMetadata("u_in_w3", WIND_NAME, WIND_NAME, "half_levels", "half_levels", "ms-1", false)
  const WINDS := map[WIND_NAME := FieldView(WIND_NAME, DoubleType, 1, 2, [[5.0, 6.0]])]
  const LFRIC_INCREMENT := Convention(true, false)

  function First(points: seq<Point>, q: Point): nat { 0 }

  lemma OneDimension(v: NcVar, d: string, size: nat)
    requires v.dims == [d] && v.attrs == map[] && d in DIMS && DIMS[d] == size && |v.data| == size
    requires v.typ != NcUnsupported
    ensures WellFormed(DIMS, v)
  {
    var shape := Shape(DIMS, v.dims);
    Hyperslab.TotalSizeCons(shape);
    assert shape[1..] == [];
  }

  lemma InputIsReadable()
    ensures INPUT.Valid() && Readable(INPUT)
  {
    OneDimension(LEVELS_VAR, "levels", 2);
    OneDimension(COORD_VAR, "cells", 1);
    AllWellFormed(INPUT);
  }

  lemma InputOpens()
    ensures Opens(INPUT, GRID) && MapFrom(INPUT, First, GRID) == [0] && Permutation([0])
  {
    var m := MapFrom(INPUT, First, GRID);
    assert |m| == 1 && m[0] == First(GRID, Point(0.0, 0.0)) == 0;
  }

  lemma NoTimeHere(f: NcFile, k: string)
    requires f == INPUT && f.DimsKnown() && k in f.vars
    ensures !HasDim(VariableOf(f, k).dims, TIME_DIM_NAME) && !HasDim(VariableOf(f, k).dims, TILE_DIM_NAME)
  {
    assert "levels"[0] != TIME_DIM_NAME[0] && "cells"[0] != TIME_DIM_NAME[0];
    assert "levels"[0] != TILE_DIM_NAME[0] && "cells"[0] != TILE_DIM_NAME[0];
  }

  lemma InputStarts()
    ensures INPUT.DimsKnown() && Opens(INPUT, GRID) && Starts(Opened(INPUT, First, GRID), true)
  {
    InputIsReadable();
    InputOpens();
    OpenedIsLoaded(INPUT, First, GRID);
    forall k | k in INPUT.vars
      ensures !HasDim(VariableOf(INPUT, k).dims, TIME_DIM_NAME) && !HasDim(VariableOf(INPUT, k).dims, TILE_DIM_NAME)
    {
      NoTimeHere(INPUT, k);
    }
  }

  lemma StoreForHas(f: NcFile, tree: Tree, atlas: seq<Point>)
    requires f.Valid() && Readable(f) && Opens(f, atlas)
    ensures var store := StoreFor(f, tree, atlas, true);
            && store.meta.dims == f.dims - {TIME_DIM_NAME, TILE_DIM_NAME} && store.lfricMap == MapFrom(f, tree, atlas)
            && store.meta.vars.Keys <= f.vars.Keys
  {
    FileCopy.MetadataOfCopy(f);
  }

  lemma DimsAreKept()
    ensures DIMS - {TIME_DIM_NAME, TILE_DIM_NAME} == DIMS
  {
    assert "levels"[0] != TIME_DIM_NAME[0] && "cells"[0] != TIME_DIM_NAME[0];
    assert "levels"[0] != TILE_DIM_NAME[0] && "cells"[0] != TILE_DIM_NAME[0];
  }

  lemma FieldIsWritable(fields: map<string, FieldView>, md: FieldMetadata, conv: Convention)
    requires conv.isLfric && ValidFields(fields) && md.jediName in fields && md.noFirstLevel == false
    requires fields[md.jediName].points == 1 && fields[md.jediName].levels == 2
    requires WriteName(md, conv) !in MISSING_VARIABLE_NAMES
    ensures Writes(DIMS, [0], fields, md, conv)
  {
    assert DIMS["levels"] == 2 && DIMS["cells"] == 1;
    assert HasSize(DIMS, 2) && HasSize(DIMS, 1);
    assert NOT_FOUND[0] != "levels"[0] && NOT_FOUND[0] != "cells"[0];
    FieldWritesIff(DIMS, [0], fields, md, conv);
  }

  lemma NamesAreNew()
    ensures NAME !in INPUT.vars && WIND_NAME !in INPUT.vars && WIND_INFO.lfricReadName !in INPUT.vars
    ensures NAME !in MISSING_VARIABLE_NAMES && WIND_NAME !in MISSING_VARIABLE_NAMES
    ensures WIND_INFO.lfricReadName != WIND_NAME
  {
    assert |NAME| == 1;
    assert WIND_NAME[0] == 'e' && WIND_INFO.lfricReadName[0] == 'u';
    assert VERT_FULL_NAME[0] == 'f' && VERT_HALF_NAME[0] == 'h' && FACE_X[0] == 'M' && FACE_Y[0] == 'M';
  }

  lemma WritableFrom(store: FileView, fields: map<string, FieldView>, md: FieldMetadata, conv: Convention)
    requires store.meta.dims == DIMS && store.lfricMap == [0] && WriteName(md, conv) !in store.meta.vars
    requires ValidFields(fields) && Writes(DIMS, [0], fields, md, conv)
    ensures FieldsWritable(store, fields, [md], conv)
  {
  }

  lemma StoreOfInput()
    ensures INPUT.DimsKnown() && Opens(INPUT, GRID)
    ensures var store := StoreFor(INPUT, First, GRID, true);
            store.meta.dims == DIMS && store.lfricMap == [0] && store.meta.vars.Keys <= INPUT.vars.Keys
  {
    InputIsReadable();
    InputOpens();
    StoreForHas(INPUT, First, GRID);
    DimsAreKept();
  }

  lemma InputTakes(fields: map<string, FieldView>, md: FieldMetadata, conv: Convention)
    requires conv.isLfric && ValidFields(fields) && md.jediName in fields && md.noFirstLevel == false
    requires fields[md.jediName].points == 1 && fields[md.jediName].levels == 2
    requires WriteName(md, conv) !in MISSING_VARIABLE_NAMES && WriteName(md, conv) !in INPUT.vars
    ensures CanWrite(INPUT, First, GRID, fields, [md], conv)
  {
    InputIsReadable();
    InputOpens();
    InputStarts();
    StoreOfInput();
    FieldIsWritable(fields, md, conv);
    WritableFrom(StoreFor(INPUT, First, GRID, true), fields, md, conv);
  }

  /** The round trip applies: a state file can be written from this one. */
  lemma SmallestCanWrite()
    ensures CanWrite(INPUT, First, GRID, FIELDS, [INFO], LFRIC_STATE) && SameNames([INFO], LFRIC_STATE)
  {
    NamesAreNew();
    InputTakes(FIELDS, INFO, LFRIC_STATE);
  }

  lemma NamesDiffer()
    ensures !SameNames([WIND_INFO], LFRIC_INCREMENT)
    ensures Increments.NoneWritten([WIND_INFO], LFRIC_INCREMENT, ReadName(WIND_INFO, true))
  {
    NamesAreNew();
    assert ReadName([WIND_INFO][0], true) == WIND_INFO.lfricReadName;
  }

  lemma NameIsNotInStore()
    ensures INPUT.DimsKnown() && Opens(INPUT, GRID)
    ensures ReadName(WIND_INFO, true) !in StoreFor(INPUT, First, GRID, true).meta.vars
  {
    NamesAreNew();
    StoreOfInput();
  }

  lemma WindsCanBeWritten()
    ensures CanWrite(INPUT, First, GRID, WINDS, [WIND_INFO], LFRIC_INCREMENT)
  {
    NamesAreNew();
    InputTakes(WINDS, WIND_INFO, LFRIC_INCREMENT);
  }

  /** An increment that is lost: it is written under the one name and looked for under
      the other, so that reading it ends with an error, whatever it is read into. */
  lemma IncrementIsLost(target: FieldView)
    requires target.Valid()
    ensures CanWrite(INPUT, First, GRID, WINDS, [WIND_INFO], LFRIC_INCREMENT)
    ensures !SameNames([WIND_INFO], LFRIC_INCREMENT)
    ensures FileFor(INPUT, First, GRID, WINDS, [WIND_INFO], LFRIC_INCREMENT).DimsKnown()
    ensures FieldFrom(FileFor(INPUT, First, GRID, WINDS, [WIND_INFO], LFRIC_INCREMENT), First, GRID, WIND_INFO,
                      target) == None
  {
    NamesDiffer();
    NameIsNotInStore();
    WindsCanBeWritten();
    Increments.MissingNameFails(INPUT, First, GRID, WINDS, [WIND_INFO], LFRIC_INCREMENT, 0, target);
  }
}
