# MONIO, modelled and verified

MONIO moves model fields between Atlas order in memory (point by point, all levels of
each) and LFRic order in a NetCDF file (level by level, all points of each), and keeps
what it knows of a file in a store of dimensions, variables, attributes and data. This
project models that path in Dafny, from opening a file to writing fields and reading them
back, and proves what it promises. It also models the bracket matcher, the preprocessor
stack and the comment eraser of the lint tool that checks the repository's coding norms.

Code that changes things is a method or a class here, proved against a function or a
relation on values; the main results are lemmas about those functions.

| modules | subject |
|---|---|
| `DataOrder`, `NearestMap`, `Hyperslab`, `DateTimes` | the two orders, the map between them, reading one time step |
| `SortedKeys`, `AddIfAbsent`, `Store`, `Equality` | maps walked in key order and filled only where absent, the store and its equality operators |
| `NetCdf`, `Transfer`, `FileCopy` | an abstract NetCDF file, reading from it and writing to it, copying a whole file |
| `FieldWriter`, `WriteRun`, `FileSetup`, `FieldSetRun` | one field made ready for writing, the write loops, the prepared working copy of a store |
| `FileInit`, `FieldReader`, `RoundTrip`, `Increments`, `Smallest` | opening a file, the read loops, what is written coming back, when increments do, and a smallest case |
| `FileContents` | what written files hold and opened files give, in names, places and numbers |
| `Characters`, `BracketMatcher`, `AngleMatcher`, `NestingState`, `CommentEraser` | the three parts of the lint tool |

## Main results

- **Round trip** (`RoundTrip.WrittenFieldsComeBack`). Take a file that opens, whose points
  are the grid's in some order, of which nothing that is kept lists time or tiles, and, for
  JEDI names, in which the two level dimensions are free or have their sizes. From it a run
  of `writeState` or `writeIncrements` in either naming convention succeeds for any list of
  fields that can be written (`WriteRun.FieldWritesIff` says which those are, by their
  sizes). Its file opens again with the same map, and `readIncrements` gives the fields back
  exactly: always for state files and for JEDI names, for increments in LFRic names if they
  are read under the names they are written under. Fields configured without a first level
  that nevertheless have 71 levels are not given back: their targets stay as they were.
- **Which increments return** (`Increments.FieldsReturnIff`). In any convention all values of
  fields of given shapes come back, into any targets, if each field that has values is read
  under the name it was written under and is not so misconfigured, and for each that has
  none there is something to read; and only if, for lists that name each field once.
- **Reading a state** (`FieldReader.ReadState`, `StateFieldIsItsShare`). At the date-time of
  step k a field is filled from the k-th share of its variable.
- **Write runs** (`WriteRun.RunWrites`, `FileOnlyGrows`, `RunFileHas`). No round fails, each
  adds just its field, nothing written is altered later.
- **Generated dimensions** (`FieldSetRun.EveryRunKeepsNames`, `EveryRunWrites`). Over any
  sequence of `writeFieldSet` calls that succeed, names and sizes of each file stay one to
  one, although the counter goes on, whatever the grids of the fields; and sets whose
  fields are of one grid are always written.
- **Shared variables** (`FileSetup.PrepareForWriting`, `SharedVariableSize`). Cleaning a
  working copy leaves the store's dimensions, variables and data in place but shortens its
  variables, by exactly the factor stated. A second copy is prepared just like the first
  (`FileSetup.PreparedAlike`).
- **Contents of files** (`FileContents.FieldsStand`, `SetStands`, `MapIsOfCoordinates`,
  `StateIsRead`). Said without any of the functions above: under which name each field is
  written in which convention, which number stands at which place, what its dimensions and
  attributes are; where longitudes and latitudes go and come from; and which share of which
  variable a state is read from.
- **Bracket matching** (`BracketMatcher.MatchingAgrees`, `CloseFindsPartner`). Forward and
  backward matching are inverse, and both find the partner in the joined text.
- **Angle brackets** (`AngleMatcher.LeftAngleFindsPartner`, `RightAngleFindsPartner`). Each
  scan matches exactly those that a grammar of lists pairs in the text that is left when the
  angle brackets that do not count in its direction are erased. The two directions agree
  where they erase the same (`AngleMatchingAgrees`).
- **Preprocessor** (`NestingState.OnlyFirstBranchesMatter`, `EveryBranchStartsAlike`). Only
  first branches count, and every other starts where the first did.

Where the code and its documentation, or what one would expect of it, part ways, the model
follows the code:

- The reader applies the map in the same direction as the writer. Values keep their places
  on the globe exactly when the map is its own inverse (`DataOrder.ReaderKeepsPlacesIff`).
- `writeFieldSet` declares dimensions by level and point and stores values by point and
  level. The two agree exactly for one point or one level
  (`FieldSetRun.SetKeepsPlacesIff`).
- Increments in LFRic names are written under one name and read under another. With the
  names of the repository's own `test/testinput/state_full.yaml` the eastward wind is
  written and then not found (`Smallest.IncrementIsLost`, `Increments.MissingNameFails`).
- The reader's bounds check admits an index equal to the size. With a container that is too
  short for a permutation the read passes its end exactly when the container reaches the
  first level read and every point before the one mapped to the place just behind its end
  lies before that place; otherwise there is an exception (`DataOrder.ShortContainerIff`;
  `PastTheEnd` and `ThrowsInTime` are smallest cases). The second loop is
  `DataOrder.AtlasOrderOutcomeIff`.
- The equality of metadata tells dimension maps of given names apart for all sizes exactly
  when the two sets of names are the same (`Equality.DimensionsComparedIff`): maps of
  different names or of different length can pass.
- Reading a time step assumes that time is the first dimension. Every request returns its
  step exactly if it is, or if all dimensions before it are as long as time and time has
  one step or nothing is behind it (`Hyperslab.TimeAnywhereIff`;
  `TimeMustComeFirst` is an input on which it fails).
- The match of a `<` that begins neither `<<` nor `<=` is a `>` exactly when the first opener
  at or after it, on its line, is a `<` that opens a list and is matched; otherwise the
  answer is that of the bracket found there, or none (`AngleMatcher.AngleMatchIff`). So in
  `operator<()` the matcher answers with the end of the parameter list
  (`OperatorLessIsMisread`).
- The forward scan looks for `operator` one character too early, so that it takes the `>` of
  `operator>` for the end of a list, which the backward scan does not
  (`AngleMatcher.OperatorGreaterCounts`); which `>` end lists is exactly `EndsList` there.

## Model

| member | source | states |
|---|---|---|
| DataOrder.PopulateDataVec | src/monio/AtlasWriter.cc:268-286 | throws exactly on a size mismatch and then changes nothing; otherwise each position holds the value of the last point mapped to it, or its old value |
| DataOrder.LoopsMakeContainer | src/monio/AtlasWriter.cc:274-285 | from a container of zeros the loops make a container that depends on field and map only |
| DataOrder.EncodingIsUnique | src/monio/AtlasWriter.cc:280-285 | under a permutation the field fixes every position of its container |
| DataOrder.Surjective | src/monio/UtilsAtlas.cc:123-127 | an injective map of the points into themselves reaches every point |
| DataOrder.CopySurfaceLevel | src/monio/AtlasWriter.cc:367-386 | the copy has the lowest level twice and all 70 levels above it |
| DataOrder.ReadLevel | src/monio/AtlasReader.cc:128-138 | done, exception or read past the end, exactly as the first index not below the size decides, and that only this level of the mapped rows changes |
| DataOrder.PopulateField | src/monio/AtlasReader.cc:109-157 | throws for 71 levels without a first one; otherwise its outcome is that of the indices in turn, and when done each mapped cell holds the value at its index, the first level passed over where it must be |
| DataOrder.ReadDoneIff | src/monio/AtlasReader.cc:127-154 | reading is done if and only if every index is in bounds |
| DataOrder.EnoughDataIff | src/monio/AtlasReader.cc:131-150 | for a permutation that is so if and only if the container holds every level that is read |
| DataOrder.ShortContainerIff | src/monio/AtlasReader.cc:131-150 | with less data the read passes the end if and only if the container reaches the first level read and no point up to the one mapped to the place behind its end lies behind it; otherwise an exception |
| DataOrder.PastTheEnd | src/monio/AtlasReader.cc:148-150 | one point and no data: a read past the end |
| DataOrder.ThrowsInTime | src/monio/AtlasReader.cc:151-152 | two points in reverse and no data: an exception |
| DataOrder.ReadAfterWrite | src/monio/AtlasReader.cc:143-148 | reading a written container gives the field back, whatever the target held |
| DataOrder.ReadAfterWriteWithSurface | src/monio/AtlasReader.cc:124-138 | the same with the level inserted on writing and passed over on reading |
| DataOrder.WriteAfterRead | src/monio/AtlasWriter.cc:280-285 | writing what was read gives the container back |
| DataOrder.WriteAfterReadWithSurface | src/monio/AtlasWriter.cc:375-384 | levels 1 and up are kept, level 0 becomes a copy of level 1 |
| DataOrder.SurfaceCopiedTwice | src/monio/AtlasWriter.cc:375-384 | doing so again changes nothing |
| DataOrder.ReaderKeepsPlacesIff | src/monio/AtlasReader.cc:143-148 | with coinciding points, for all data every value is read to the cell of its own place if and only if the map is an involution |
| DataOrder.RingMovesValues | src/monio/UtilsAtlas.cc:123-127 | three points in a ring whose values the reader moves |
| DataOrder.PopulateDataVecAtlasOrder | src/monio/AtlasWriter.cc:298-320 | values in point by point order, the rest of the container untouched |
| DataOrder.PopulateFieldAtlasOrder | src/monio/AtlasReader.cc:175-197 | its outcome is that of the indices in turn, and when done cells hold the values in level by level order |
| DataOrder.AtlasOrderOutcomeIff | src/monio/AtlasReader.cc:185-197 | done if and only if all data are there; past the end if and only if they end with a level or in the last one; otherwise an exception |
| DataOrder.OrdersAgreeIff | src/monio/AtlasWriter.cc:298-320 | both orders give every cell the same position if and only if there is one point or one level |
| NearestMap.CreateLfricAtlasMap | src/monio/UtilsAtlas.cc:100-129 | an error unless there are as many file points as grid points; otherwise the closest grid point of each |
| NearestMap.NearestMapIsPairing | src/monio/UtilsAtlas.cc:100-129 | for file points within half the separation of grid points of their own the map is that pairing and reaches every point |
| Hyperslab.BuildRequest | src/monio/Reader.cc:99-115 | start, count and size of a request for one time step |
| Hyperslab.StepIsSlice | src/monio/Reader.cc:99-124 | for row-major data of any rank a request for step t of the first dimension returns the t-th of its equal shares |
| Hyperslab.TimeStepsShareOut | src/monio/Variable.cc:32-38 | the shares of all steps make up the total size |
| Hyperslab.TimeAnywhereIff | src/monio/Reader.cc:99-124 | with time at any place, every request for a step is in range and returns that step of all data if and only if time is first, or all dimensions before it are as long and it has one step or something behind it has size zero |
| Hyperslab.TimeMustComeFirst | src/monio/Reader.cc:102-115 | two by two values with time second, of which a request returns others than those of its step |
| Transfer.ReadDatumAtTime | src/monio/Reader.cc:78-159 | fails exactly if date-time, variable or data are missing; a container that is there stays; else that of the step is added |
| Transfer.StepIsShareOfAll | src/monio/Reader.cc:89-193 | a step read by itself is that step's share of what reading everything gives |
| Transfer.DateTimeReadsItsShare | src/monio/Reader.cc:78-159 | with offsets a second apart, reading at the k-th date-time adds the k-th share |
| DateTimes.CreateDateTimes | src/monio/Monio.cc:429-437 | origin plus each offset rounded to seconds; offsets that round below zero are an error |
| DateTimes.FindTimeStep | src/monio/Reader.cc:258-270 | the first step of that date-time, or an error |
| DateTimes.FindsEveryStepIff | src/monio/Reader.cc:266-270 | every step is found under its own date-time if and only if date-times are distinct |
| DateTimes.SecondsApartAreFound | src/monio/Monio.cc:429-437 | offsets at least a second apart have distinct date-times, and so every step is found |
| Store.WithoutRemoves | src/monio/Variable.cc:116-124 | nothing of the deleted name is left in a list without repeats, everything else is |
| Store.Variable.GetTotalSize | src/monio/Variable.cc:32-38 | the product of all sizes |
| Store.Variable.AddDimension | src/monio/Variable.cc:91-102 | an error for a name already listed; otherwise appended |
| Store.Variable.DeleteDimension | src/monio/Variable.cc:116-124 | the list without that dimension, nothing else changed |
| Store.Metadata.GetDimensionName | src/monio/Metadata.cc:151-158 | the smallest name of a dimension of that size, or the name for none |
| SortedKeys.LessIff | src/monio/Metadata.cc:151-158 | names come in the order of a dictionary: at the first difference the smaller character or the end comes first |
| Store.Metadata.DeleteDimension | src/monio/Metadata.cc:352-361 | the dimension goes from the map and from every variable object |
| Store.Metadata.DeleteVariable | src/monio/Metadata.cc:363-372 | an error exactly if the variable is not there |
| Store.FileData.ClearData | src/monio/FileData.cc:15-18 | dimensions, map and date-times stay, the rest goes |
| Equality.SideBySide | src/monio/Data.cc:41-99 | walking two maps of one size in step compares equal entries exactly when the maps are equal |
| Equality.EqualData | src/monio/Data.cc:41-100 | the operator's answer, found by the paired loop, compares sizes, names, types and contents in key order |
| Equality.DataEqualityIsEquality | src/monio/Data.cc:24-100 | where keys are container names the operator is equality of the maps |
| Equality.EqualMetadata | src/monio/Metadata.cc:30-129 | the operator's answer: variables equal in all respects, and the weak test of dimensions |
| Equality.DimensionsOfSameNames | src/monio/Metadata.cc:32-39 | where dimension names are the same, just equal dimension maps pass |
| Equality.DimensionsComparedIff | src/monio/Metadata.cc:32-39 | for maps of given names that test decides equality, whatever the sizes, if and only if both have the same names |
| NetCdf.File.ReadMetadata | src/monio/File.cc:63-262 | fails exactly for unknown types or repeated dimensions; adds all that is absent |
| NetCdf.File.WriteMetadata | src/monio/File.cc:314-438 | fails exactly if a new variable lists an undefined dimension; the file gains what it did not have |
| Transfer.ReadFullData | src/monio/Reader.cc:169-225 | fails exactly if some variable is missing or cannot be read; adds the containers that are absent |
| Transfer.WriteData | src/monio/Writer.cc:74-110 | fails exactly if a container has no variable or does not fill it; then the file holds all data |
| FileCopy.CopyLaw | src/monio/File.cc:90-438 | reading a file and writing it to a new one gives its normal form, which reads back the same and is its own copy |
| FileCopy.WritesNormalised | src/monio/File.cc:314-438 | the normal form changes attribute types only |
| FileCopy.NormalisedTwice | src/monio/File.cc:138-262 | a second copy changes nothing more |
| FileCopy.BasicStateTestPasses | test/monio/StateBasic.h:48-80 | the test's comparison of metadata and data succeeds for every readable file |
| FieldWriter.GetWriteField | src/monio/AtlasWriter.cc:322-365 | the field under its write name, with a surface level where it needs one; an error for 71 levels without a first one or a missing name |
| FieldWriter.AddVariableDimensions | src/monio/AtlasWriter.cc:398-420 | the dimensions found by size, levels first; an error if two sizes have one name |
| FieldWriter.ListedDimsExist | src/monio/AtlasWriter.cc:408-419 | each listed dimension is of the metadata, with its size there, and none twice |
| FieldWriter.ListedDimsFit | src/monio/AtlasWriter.cc:398-420 | if every size not found is one, the variable's total size is that of the data, also where dimensions share a size |
| FieldWriter.PopulateFileDataWithField | src/monio/AtlasWriter.cc:31-52 | the store with the field's variable, container and attributes, or an error exactly as its parts fail |
| WriteRun.ReadyStoreIsWritten | src/monio/Writer.cc:74-110 | a store that matches the file is written whole, nothing in the file changes, and no container lacks its variable |
| WriteRun.PopulatedIsReady | src/monio/AtlasWriter.cc:31-52 | a field adds its variable and container alike and just its variable to what will be written |
| WriteRun.FieldWritesIff | src/monio/AtlasWriter.cc:31-52 | a field that is as configured can be written if and only if it has a value for every point, each of its sizes is one or that of a dimension, and the sizes differ or no dimension has them |
| WriteRun.RunWrites | src/monio/Monio.cc:245-275 | a run that can start never fails and leaves exactly the file stated, whatever the number of fields |
| WriteRun.RunFileHas | src/monio/Monio.cc:245-275 | that file has the variables the store began with and each field's, in full, and no others |
| WriteRun.WrittenElement | src/monio/AtlasWriter.cc:280-285 | the element at level j and point map[i] is the field's value at point i and level j |
| WriteRun.FileOnlyGrows | src/monio/Monio.cc:182-213 | what the file holds after some rounds it holds unaltered at the end |
| WriteRun.WriteFields | src/monio/Monio.cc:163-224 | the loop does just what the run of steps does, on the heap, and fails exactly if it does |
| FileSetup.CleanFileData | src/monio/Monio.cc:442-461 | the cleaned store, and what happens to the variable objects, also those dropped or shared; never fails |
| FileSetup.CleanedIsConsistent | src/monio/Monio.cc:445-460 | no dimension, variable or container of time or tiles is left, and every listed dimension is still defined with its size |
| FileSetup.CleanedMatchesIff | src/monio/Monio.cc:448-459 | variables and containers correspond afterwards if and only if every container kept had a variable |
| FileSetup.CleanedIsReady | src/monio/Monio.cc:442-461 | a loaded store that lists no time or tiles can be written after cleaning, and keeps its variables as they were |
| FileSetup.AddJediData | src/monio/Monio.cc:463-508 | the store with both level dimensions, variables and containers, each where absent |
| FileSetup.JediDataMatches | src/monio/Monio.cc:463-508 | keys of variables and containers stay equal and nothing there is changed |
| FileSetup.WithLevelsIsReady | src/monio/Monio.cc:463-508 | the store stays ready if and only if no other dimension of that name has another size |
| FileSetup.PrepareForWriting | src/monio/Monio.cc:176-180 | the working copy, and the store afterwards: same dimensions, variable objects and containers, variables shortened |
| FileSetup.SharedVariablesStayConsistent | src/monio/Monio.cc:384-392 | in the store, too, listed dimensions stay defined with their sizes |
| FileSetup.SharedVariableSize | src/monio/Variable.cc:116-124 | a shared variable's total size is divided by its numbers of times and tiles, and unchanged only if both are one or nothing is left |
| FileSetup.WriteState | src/monio/Monio.cc:226-286 | no fields are an error that changes nothing; otherwise the file is that of a run from the prepared store, and what the store is afterwards |
| FileSetup.PreparedAlike | src/monio/Monio.cc:384-392 | a second working copy, from a store whose variables were shortened, is prepared like the first |
| FieldSetRun.DimNamesDiffer | src/monio/AtlasWriter.cc:69 | different counts give different names |
| FieldSetRun.DimNameIs | src/monio/AtlasWriter.cc:69 | a name is `dim` and the count in decimal digits |
| FieldSetRun.FirstSizesAreNumbered | src/monio/AtlasWriter.cc:66-73 | in a new file the first field's points get the next number and its levels the one after |
| FieldSetRun.AtlasWriter.CreateDimensions | src/monio/AtlasWriter.cc:66-73 | a dimension for each size that has none, the counter advanced for each |
| FieldSetRun.WithSizeKeeps | src/monio/AtlasWriter.cc:66-73 | names and sizes stay one to one, old dimensions stay, and the size is found |
| FieldSetRun.NamesStay | src/monio/Metadata.cc:151-158 | more dimensions do not change what a size is called |
| FieldSetRun.SetStepWrites | src/monio/Monio.cc:299-306 | a round writes its field, and rewrites the coordinates without changing them |
| FieldSetRun.SetRunKeepsNames | src/monio/Monio.cc:297-307 | after every round of a run that succeeds, whatever the grids of its fields, names and sizes are one to one, every size is found, and the file has just these dimensions |
| FieldSetRun.EveryRunKeepsNames | src/monio/Monio.cc:288-318 | the same over any sequence of runs, the counter carried along |
| FieldSetRun.SetRunWrites | src/monio/Monio.cc:297-307 | from any value of the counter each round of a set of one grid succeeds, and the file has just the run's dimensions, the coordinates and all fields |
| FieldSetRun.EveryRunWrites | src/monio/Monio.cc:288-318 | the same over any sequence of such sets, the counter carried along |
| FieldSetRun.SetKeepsPlacesIff | src/monio/AtlasWriter.cc:298-320 | values stand where the declared dimensions say, for every field, if and only if there is one point or one level |
| FieldSetRun.AtlasWriter.WriteFieldSet | src/monio/Monio.cc:288-318 | the loop does what the run of steps does, coordinates taken for each field, and fails exactly if it does or there are no fields |
| FileInit.FindVariableNames | src/monio/Metadata.cc:274-284 | the names that contain the mesh term, in key order |
| FileInit.ContainsIff | src/monio/Metadata.cc:274-284 | a name contains the term if the term stands anywhere in it |
| FileInit.GetCoordData | src/monio/Reader.cc:235-256 | the coordinate containers that are there, in key order and not in that of the list; an error unless two names are given |
| FileInit.CoordsInOrder | src/monio/Reader.cc:242-250 | for the two LFRic names that order puts the longitudes first |
| FileInit.GetLfricCoords | src/monio/UtilsAtlas.cc:27-58 | points with longitudes from the first container and latitudes from the second, or an error for another number of containers or other types |
| FileInit.CreateLfricAtlasMap | src/monio/Monio.cc:393-405 | a map that is there stays; otherwise coordinates are read and the map is made, or it fails |
| FileInit.CreateDateTimes | src/monio/Monio.cc:407-440 | date-times that are there stay; otherwise they are made of the time variable and its origin, or it fails for lack of either or another type |
| FileInit.InitialiseFile | src/monio/Monio.cc:330-356 | the new store, with date-times where asked for, and its convention, or failure exactly if something needed is missing |
| FieldReader.GetReadField | src/monio/AtlasReader.cc:206-226 | a field of its own with 70 levels for the misconfigured case, otherwise the field itself |
| FieldReader.PopulateFieldWithFileData | src/monio/AtlasReader.cc:23-74 | fails exactly for a missing container, another type or too little data; a misconfigured field is left as it was |
| FieldReader.ReadIncrements | src/monio/Monio.cc:107-161 | the loop does to the fields what the run of reads does and fails exactly if it does or there are no fields |
| FieldReader.ReadState | src/monio/Monio.cc:46-105 | the same for the loop that reads one date-time |
| FieldReader.StateFieldIsItsShare | src/monio/Monio.cc:61-86 | at the date-time of step k, offsets a second apart, a field is filled from the k-th share of its variable |
| RoundTrip.OpensIff | src/monio/Monio.cc:330-356 | a readable file opens if and only if it has levels and float coordinates for as many points as the grid, and what the store then holds |
| RoundTrip.WrittenFileOpens | src/monio/Monio.cc:330-356 | a written file has all that opening needs, names its convention, and gives the same map |
| RoundTrip.FieldComesBack | src/monio/AtlasReader.cc:109-157 | one field written and read in one convention comes back whatever the target held, unless misconfigured |
| RoundTrip.NamesAgreeUnlessIncrement | src/monio/Monio.cc:122-270 | state files and JEDI names are read under the names they are written under |
| RoundTrip.WrittenFieldsComeBack | src/monio/Monio.cc:107-286 | all fields of a list come back from the file of a run, misconfigured ones left as they were, for increments in LFRic names if these agree |
| Increments.FieldsReturnIff | src/monio/Monio.cc:107-224 | all values of all fields of these shapes come back into any targets if each entry with values is read under the name it was written under and is configured as it should be, and each without finds something to read; and only if, for a list that names each field once |
| Increments.MissingNameFails | src/monio/Monio.cc:107-224 | a field read under a name that no entry is written under and that is not kept of the first file is not read, whatever it is read into |
| Smallest.IncrementIsLost | src/monio/Monio.cc:186-196 | the eastward wind under its names in test/testinput/state_full.yaml, written as an increment and not found again |
| Smallest.SmallestCanWrite | src/monio/Monio.cc:226-286 | a file, a grid and a field to which the round trip applies |
| RoundTrip.NearbyPointsGiveTheMap | src/monio/UtilsAtlas.cc:123-127 | file points near grid points of their own give that pairing as the map of the file, a permutation |
| FileContents.FieldsStand | src/monio/Monio.cc:182-275 | a written file has each field under the LFRic name for reading (state), for writing (increment) or the JEDI name: its type, each value at its place, the dimensions of its sizes with its own vertical one first choice, and its ten attributes; with LFRic names none that is misconfigured |
| FileContents.ConventionIsNamed | src/monio/AtlasWriter.cc:422-437 | its attributes name the convention and the producer, and no others are there |
| FileContents.JediLevelsStand | src/monio/Monio.cc:463-508 | with JEDI names it has both level variables, 1, 2, ... 70 and 0.5, 1.5, ... 70.5 |
| FileContents.NothingOfTime | src/monio/Monio.cc:442-461 | cleaning removes the time and tile dimensions, variables and data and the attributes, and no other data or dimension |
| FileContents.SetStands | src/monio/AtlasWriter.cc:55-96 | the file of a field set has each longitude and latitude under its name, each field's values point by point under dimensions by level and point, and no other variables |
| FileContents.MapIsOfCoordinates | src/monio/UtilsAtlas.cc:41-53 | the map of an opened file is, for each of its points, the closest grid point to the longitude and latitude there |
| FileContents.OpenedDataAre | src/monio/Monio.cc:338-344 | opening reads the data of variables with the mesh term in their name and of both level variables, and no others |
| FileContents.ConventionIsRead | src/monio/Metadata.cc:325-339 | a file is of JEDI names only if its attribute says so, also if it has none |
| FileContents.DateTimesAreRead | src/monio/Monio.cc:407-440 | the date-times of an opened file are its origin and each of its offsets, to the closest second |
| FileContents.StateIsRead | src/monio/Monio.cc:46-105 | opened for a date-time that is that of step k, a file fills the field from the k-th share of its variable of the LFRic name for reading or the JEDI name |
| FileContents.UnnamedIsPassedOver | src/monio/Monio.cc:74-86 | a field whose LFRic name says that it has none stays as it is |
| BracketMatcher.FindEndOfExpressionInLine | test/utils/cpplint.py:2030-2105 | the loop over one line and its stack give the result of the fold over its characters |
| BracketMatcher.CloseExpression | test/utils/cpplint.py:2108-2149 | the loop over lines gives the result of the fold over lines, the stack carried along |
| BracketMatcher.FindStartOfExpressionInLine | test/utils/cpplint.py:2152-2226 | the same backwards over one line |
| BracketMatcher.ReverseCloseExpression | test/utils/cpplint.py:2229-2264 | the same backwards over lines |
| BracketMatcher.PlainScanFindsPartner | test/utils/cpplint.py:2030-2105 | the plain scan that knows no angle brackets ends exactly at the partner, the shortest properly nested stretch |
| BracketMatcher.PlainBackFindsPartner | test/utils/cpplint.py:2152-2226 | the same for the plain scan backwards |
| BracketMatcher.ForwardLinesRefines | test/utils/cpplint.py:2135-2149 | the scan with angle brackets, line by line, refines the plain scan of the joined text |
| BracketMatcher.BackwardLinesRefines | test/utils/cpplint.py:2250-2264 | the same backwards |
| BracketMatcher.CloseFindsPartner | test/utils/cpplint.py:2108-2149 | from a round, square or curly bracket the answer is a place if and only if it is the partner's |
| BracketMatcher.OpenFindsPartner | test/utils/cpplint.py:2229-2264 | the same backwards |
| BracketMatcher.MatchingAgrees | test/utils/cpplint.py:2108-2264 | forward matching leads from one bracket to the other if and only if backward matching leads back |
| AngleMatcher.LeftAngleFindsPartner | test/utils/cpplint.py:2030-2149 | from a `<` that is not the second of `<<`, does not follow `operator` and begins neither `<<` nor `<=`, the answer is the `>` that ends its list and no other, on any line |
| AngleMatcher.RightAngleFindsPartner | test/utils/cpplint.py:2152-2264 | from a `>` that is not of `->`, ` >= ` or `operator>` the answer is the `<` whose list it ends and no other, on any line |
| AngleMatcher.RightAngleAnswer | test/utils/cpplint.py:2190-2199 | such an answer is a `<` that is left over of its row of `<` taken two by two, and what is between is properly nested |
| AngleMatcher.AngleMatchingAgrees | test/utils/cpplint.py:2108-2264 | where the same angle brackets count in both directions, forward matching leads from one to the other if and only if backward matching leads back |
| AngleMatcher.IgnoredRightAnswer | test/utils/cpplint.py:2176-2187 | any other `>` is answered like the next closing bracket or counting `>` before it on its line, or not at all |
| AngleMatcher.NoMatchElsewhere | test/utils/cpplint.py:2130-2132 | no answer from `<<`, `<=` or a character that is no bracket of that direction |
| AngleMatcher.AngleAnswer | test/utils/cpplint.py:2030-2149 | the answer for a `<` that begins neither `<<` nor `<=` is that of the first bracket or list-starting `<` at or after it on its line, or none if the line ends, or a closing bracket or semicolon comes, first |
| AngleMatcher.AngleMatchIff | test/utils/cpplint.py:2030-2149 | its match is a `>` if and only if that opener is a `<` whose list has an end, and then it is that end, with nested text between; it is another character if and only if the opener is a bracket that is matched |
| AngleMatcher.AngleMatchIsNested | test/utils/cpplint.py:2030-2105 | a match found for a list-starting angle bracket is a closing one, with proper nesting between |
| AngleMatcher.OperatorGreaterCounts | test/utils/cpplint.py:2085-2089 | the `>` of `operator>` counts forwards and not backwards |
| AngleMatcher.OperatorLessIsMisread | test/utils/cpplint.py:2055-2068 | an input on which an angle bracket is given another bracket's partner |
| NestingState.NestingState.UpdatePreprocessor | test/utils/cpplint.py:3050-3104 | the stack of records on the heap and its copies become what the value step says |
| NestingState.NestingState.UpdateAll | test/utils/cpplint.py:3050-3104 | so they do over any list of lines, with any changes in between |
| NestingState.RegionKeepsCheckpoints | test/utils/cpplint.py:3050-3104 | properly nested lines leave the preprocessor stack as it was |
| NestingState.OnlyFirstBranchesMatter | test/utils/cpplint.py:2917-2928 | after properly nested lines both stacks are as after the same lines with every branch but the first removed |
| NestingState.EveryBranchStartsAlike | test/utils/cpplint.py:3085-3086 | after the first branch and any number of others the next `#else` or `#elif` puts back the stack from before `#if` |
| NestingState.DirectiveIff | test/utils/cpplint.py:3071-3093 | a line is a directive if and only if it is white space, `#`, white space and one of the six words as a whole |
| NestingState.EditsOfOneBlock | test/utils/cpplint.py:2917-2928 | a block that is pushed, changed and popped leaves the stack below it as it was |
| CommentEraser.FindNextMultiLineCommentStart | test/utils/cpplint.py:1874-1882 | the next line that opens a comment without closing it |
| CommentEraser.FindNextMultiLineCommentEnd | test/utils/cpplint.py:1885-1891 | the next line that ends in an end marker |
| CommentEraser.RemoveMultiLineComments | test/utils/cpplint.py:1902-1915 | every line of a closed comment is blanked, no other is changed, and the line of an unclosed one is reported |
| CommentEraser.ErasedAre | test/utils/cpplint.py:1895-1915 | a line is replaced if and only if a line at or before it begins a comment that no line since then has ended; of a comment that never ends the first line is reported and nothing from there on is replaced |
| CommentEraser.StartIff | test/utils/cpplint.py:1874-1882 | a line begins a comment if and only if its first characters but white space are the start marker and no end marker follows |
| CommentEraser.EndIff | test/utils/cpplint.py:1885-1891 | a line ends a comment if and only if its last characters but white space are the end marker |
| CommentEraser.ErasingTwice | test/utils/cpplint.py:1902-1915 | doing it again changes nothing and reports the same |

## Left out

- MPI: everything runs on the owner rank, so gathering, scattering and halo exchange are identities.
- NetCDF, Atlas, ECKit and OOPS internals: an abstract file, two-dimensional arrays, a function that gives a closest point, and date-times as whole seconds.
- File handles and modes, file paths, logging and messages: an exception is a failed result, and what it leaves half done is not described.
- Floating-point rounding, NaN and negative zero: values are reals. Single, double and integer values are told apart by type only.
- 32-bit overflow of indices and sizes: integers are unbounded.
- Conversion between types by the NetCDF library: a variable read or written as another type is an error in the model.
- Unlimited dimensions, groups, and attributes that are arrays.
- Character and string attributes: both are text, so their difference is not seen.
- The loops that add a variable's attributes one by one on writing: one assignment of all of them.
- RoundTrip.WrittenFieldsComeBack: asks that what is kept of the first file lists no time or tiles, and that no dimension of its own has the name of a JEDI level dimension and another size; other files are not followed to the end.
- Increments.FieldsReturnIff: its only-if half asks that the list names each field once. Two entries for one field that exchange their names bring it back as well, and what decides for such lists is not stated.
- The parsing of a time origin: which whole second a text stands for is a parameter.
- FieldWriter.GetWriteField: the program renames the field it is given in place where no surface level is needed; here the written field is a new one and the one given keeps its name.
- FieldSetRun.SetRunWrites: what the whole file holds is stated for fields of one grid with a number of levels other than that of points; of other sets that are written the dimensions are (`SetRunKeepsNames`).
- A field with fewer points than the map has: an error in the model; the program would leave its bounds.
- Coordinates with fewer latitudes than longitudes, a convention attribute that is no string: errors in the model.
- DateTimes.CreateDateTimes: an offset that rounds below zero is an error in the model; the program converts it to an unsigned count.
- getHorizontalSize: fields are taken as global ones, without halo.
- The command line tools, `removeAllButThese...` and printing.
- In the lint tool: everything but the three parts above. Regular expressions are decided for ASCII characters. What the rest of an update does to the block stack is any sequence of pushes, pops and changes of the top, chosen in view of stack and line.
