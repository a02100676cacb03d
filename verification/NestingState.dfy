/** The preprocessor part of the lint tool's NestingState (test/utils/cpplint.py):
    a stack of open blocks that "#if", "#else" and "#endif" checkpoint and restore. */
module NestingState {
  import opened Characters

  datatype BlockKind = PlainBlock | ExternC | Namespace(name: string) | Class(name: string, access: string)

  /** The fields of a block record, all of which later lines may change in place. */
  datatype BlockInfo = BlockInfo(
    kind: BlockKind, startingLine: nat, seenOpenBrace: bool, openParentheses: int, inlineAsm: nat)

  type Stack = seq<BlockInfo>

  datatype Checkpoint<T> = Checkpoint(beforeIf: seq<T>, beforeElse: seq<T>, seenElse: bool)

  datatype State = State(stack: Stack, checkpoints: seq<Checkpoint<BlockInfo>>)

  datatype Directive = If | Else | Endif | Other

  datatype Line = Line(text: string, number: nat)

  /** The three regular expressions: white space, '#', white space and a whole word. */
  function DirectiveOf(text: string): Directive {
    var s := SkipSpaces(text);
    if s == "" || s[0] != '#' then Other
    else
      var word := LeadingWord(SkipSpaces(s[1..]));
      if word == "if" || word == "ifdef" || word == "ifndef" then If
      else if word == "else" || word == "elif" then Else
      else if word == "endif" then Endif
      else Other
  }

  /** Everything the rest of Update does to the stack is made of these: push a new
      block, pop the top one, overwrite fields of the top one. */
  datatype Edit = Push(info: BlockInfo) | Pop | Overwrite(info: BlockInfo)

  /** What the rest of Update does with a line: any edits, chosen in view of the
      stack and the line. */
  type Reaction = (Stack, Line) -> seq<Edit>

  function Top<T>(s: seq<T>): T
    requires s != []
  {
    s[|s| - 1]
  }

  function Below<T>(s: seq<T>): seq<T>
    requires s != []
  {
    s[..|s| - 1]
  }

  function Edited(stack: Stack, edits: seq<Edit>): Stack
    decreases |edits|
  {
    if edits == [] then stack
    else
      var next := match edits[0]
        case Push(info) => stack + [info]
        case Pop => if stack == [] then stack else Below(stack)
        case Overwrite(info) => if stack == [] then stack else Below(stack) + [info];
      Edited(next, edits[1..])
  }

  function Preprocessed(st: State, d: Directive): State {
    match d
    case If => st.(checkpoints := st.checkpoints + [Checkpoint(st.stack, [], false)])
    case Else =>
      if st.checkpoints == [] then st
      else
        var top := Top(st.checkpoints);
        var top' := if top.seenElse then top else Checkpoint(top.beforeIf, st.stack, true);
        State(top.beforeIf, Below(st.checkpoints) + [top'])
    case Endif =>
      if st.checkpoints == [] then st
      else
        var top := Top(st.checkpoints);
        State(if top.seenElse then top.beforeElse else st.stack, Below(st.checkpoints))
    case Other => st
  }

  function Updated(st: State, line: Line, reaction: Reaction): State {
    var st' := Preprocessed(st, DirectiveOf(line.text));
    st'.(stack := Edited(st'.stack, reaction(st'.stack, line)))
  }

  function Run(lines: seq<Line>, st: State, reaction: Reaction): State
    decreases |lines|
  {
    if lines == [] then st else Run(lines[1..], Updated(st, lines[0], reaction), reaction)
  }

  lemma RunNext(lines: seq<Line>, i: nat, st: State, reaction: Reaction)
    requires i < |lines|
    ensures Run(lines[i..], st, reaction) == Run(lines[i + 1..], Updated(st, lines[i], reaction), reaction)
  {
    assert lines[i..][1..] == lines[i + 1..];
  }

  // ---------------------------------------------------------------------------
  // The records on the heap
  // ---------------------------------------------------------------------------

  class Block {
    var info: BlockInfo
    constructor (info: BlockInfo)
      ensures this.info == info
    {
      this.info := info;
    }
  }

  ghost predicate Distinct(s: seq<Block>) {
    forall i, j :: 0 <= i < j < |s| ==> s[i] != s[j]
  }

  function Infos(s: seq<Block>): (r: Stack)
    reads s
    ensures |r| == |s| && forall i :: 0 <= i < |s| ==> r[i] == s[i].info
  {
    seq(|s|, i requires 0 <= i < |s| reads s => s[i].info)
  }

  ghost function Members(s: seq<Block>): set<Block> { set b | b in s }

  ghost function Saved(c: Checkpoint<Block>): set<Block> { Members(c.beforeIf) + Members(c.beforeElse) }

  ghost function AllSaved(cs: seq<Checkpoint<Block>>): set<Block> {
    if cs == [] then {} else AllSaved(Below(cs)) + Saved(Top(cs))
  }

  ghost function ValueOf(c: Checkpoint<Block>): Checkpoint<BlockInfo>
    reads c.beforeIf, c.beforeElse
  {
    Checkpoint(Infos(c.beforeIf), Infos(c.beforeElse), c.seenElse)
  }

  ghost function ValuesOf(cs: seq<Checkpoint<Block>>): (r: seq<Checkpoint<BlockInfo>>)
    reads AllSaved(cs)
    ensures |r| == |cs|
  {
    if cs == [] then [] else ValuesOf(Below(cs)) + [ValueOf(Top(cs))]
  }

  /** No record is shared between two checkpoints. */
  ghost predicate Separate(cs: seq<Checkpoint<Block>>) {
    cs == [] ||
    (Separate(Below(cs)) && Saved(Top(cs)) !! AllSaved(Below(cs)) && Distinct(Top(cs).beforeElse))
  }

  /** Checkpoints hold records that exist, so records made later are not among them. */
  lemma {:induction false} SavedExist(cs: seq<Checkpoint<Block>>)
    ensures forall b :: b in AllSaved(cs) ==> allocated(b)
  {
    if cs != [] { SavedExist(Below(cs)); }
  }

  lemma PutOnTop(below: seq<Checkpoint<Block>>, c: Checkpoint<Block>)
    requires Separate(below) && Saved(c) !! AllSaved(below) && Distinct(c.beforeElse)
    ensures Separate(below + [c]) && AllSaved(below + [c]) == AllSaved(below) + Saved(c)
    ensures ValuesOf(below + [c]) == ValuesOf(below) + [ValueOf(c)]
  {
    assert Below(below + [c]) == below;
  }

  /** The nesting state with its stack of records, which are changed in place, and
      its checkpoints, which must not change with them. */
  class NestingState {
    var stack: seq<Block>
    var checkpoints: seq<Checkpoint<Block>>

    ghost function Records(): set<Block>
      reads this
    {
      Members(stack) + AllSaved(checkpoints)
    }

    /** No record is shared between the stack and a checkpoint or between checkpoints. */
    ghost predicate Valid()
      reads this
    {
      Distinct(stack) && Members(stack) !! AllSaved(checkpoints) && Separate(checkpoints)
    }

    ghost function View(): State
      reads this, Records()
    {
      State(Infos(stack), ValuesOf(checkpoints))
    }

    constructor ()
      ensures Valid() && View() == State([], []) && fresh(Records())
    {
      stack, checkpoints := [], [];
    }

    static method DeepCopy(s: seq<Block>) returns (r: seq<Block>)
      ensures Distinct(r) && (forall b :: b in r ==> fresh(b))
      ensures Infos(r) == Infos(s) == old(Infos(s))
    {
      r := [];
      for i := 0 to |s|
        invariant |r| == i && Distinct(r) && forall b :: b in r ==> fresh(b)
        invariant forall k :: 0 <= k < i ==> r[k].info == s[k].info
        invariant forall k :: 0 <= k < |s| ==> s[k].info == old(s[k].info)
      {
        var b := new Block(s[i].info);
        r := r + [b];
      }
    }

    /** "#if": checkpoint a deep copy of the stack. */
    method OpenConditional()
      requires Valid()
      modifies this
      ensures Valid() && fresh(Records() - old(Records()))
      ensures View() == Preprocessed(old(View()), If)
    {
      SavedExist(checkpoints);
      var below := checkpoints;
      ghost var kept := ValuesOf(below);
      var copy := DeepCopy(stack);
      assert ValuesOf(below) == kept;
      var checkpoint := Checkpoint(copy, [], false);
      PutOnTop(below, checkpoint);
      checkpoints := below + [checkpoint];
      assert Saved(checkpoint) == Members(copy);
      assert ValueOf(checkpoint) == Checkpoint(Infos(copy), [], false);
    }

    /** The first "#else" or "#elif": checkpoint what the first branch left. */
    method KeepFirstBranch()
      requires Valid() && checkpoints != []
      modifies this
      ensures Valid() && fresh(Records() - old(Records())) && stack == old(stack) && checkpoints != []
      ensures View().stack == old(View()).stack
      ensures var was := old(View()).checkpoints;
              View().checkpoints == Below(was) + [Checkpoint(Top(was).beforeIf, old(View()).stack, true)]
    {
      SavedExist(checkpoints);
      var below := Below(checkpoints);
      ghost var kept := ValuesOf(below);
      var copy := DeepCopy(stack);
      assert ValuesOf(below) == kept;
      var checkpoint := Checkpoint(Top(checkpoints).beforeIf, copy, true);
      PutOnTop(below, checkpoint);
      checkpoints := below + [checkpoint];
      assert Saved(checkpoint) == Members(checkpoint.beforeIf) + Members(copy);
      assert ValueOf(checkpoint) == Checkpoint(Infos(checkpoint.beforeIf), Infos(copy), true);
    }

    method RestoreBeforeIf()
      requires Valid() && checkpoints != []
      modifies this
      ensures Valid() && fresh(Members(stack)) && checkpoints == old(checkpoints)
      ensures View().stack == Top(old(View()).checkpoints).beforeIf
      ensures View().checkpoints == old(View()).checkpoints
    {
      SavedExist(checkpoints);
      ghost var kept := ValuesOf(checkpoints);
      stack := DeepCopy(Top(checkpoints).beforeIf);
      assert ValuesOf(checkpoints) == kept;
    }

    /** "#else", "#elif": keep the stack the first branch left, go back to the checkpoint. */
    method NextBranch()
      requires Valid()
      modifies this
      ensures Valid() && fresh(Records() - old(Records()))
      ensures View() == Preprocessed(old(View()), Else)
    {
      if checkpoints != [] {
        if !Top(checkpoints).seenElse { KeepFirstBranch(); }
        RestoreBeforeIf();
      }
    }

    /** "#endif": take back what the first branch left, if there was another. */
    method CloseConditional()
      requires Valid()
      modifies this
      ensures Valid() && Records() <= old(Records())
      ensures View() == Preprocessed(old(View()), Endif)
    {
      if checkpoints != [] {
        if Top(checkpoints).seenElse { stack := Top(checkpoints).beforeElse; }
        checkpoints := Below(checkpoints);
      }
    }

    method UpdatePreprocessor(line: string)
      requires Valid()
      modifies this
      ensures Valid() && fresh(Records() - old(Records()))
      ensures View() == Preprocessed(old(View()), DirectiveOf(line))
    {
      match DirectiveOf(line)
      case If => OpenConditional();
      case Else => NextBranch();
      case Endif => CloseConditional();
      case Other =>
    }

    method OverwriteTop(info: BlockInfo)
      requires Valid() && stack != []
      modifies stack
      ensures Valid() && Infos(stack) == old(Below(Infos(stack))) + [info]
      ensures ValuesOf(checkpoints) == old(ValuesOf(checkpoints))
    {
      ghost var kept := ValuesOf(checkpoints);
      assert Top(stack) in Members(stack);
      Top(stack).info := info;
      assert ValuesOf(checkpoints) == kept;
    }

    method PushRecord(info: BlockInfo)
      requires Valid()
      modifies this
      ensures Valid() && fresh(Members(stack) - old(Members(stack))) && checkpoints == old(checkpoints)
      ensures Infos(stack) == old(Infos(stack)) + [info] && ValuesOf(checkpoints) == old(ValuesOf(checkpoints))
    {
      SavedExist(checkpoints);
      ghost var kept := ValuesOf(checkpoints);
      var b := new Block(info);
      stack := stack + [b];
      assert ValuesOf(checkpoints) == kept;
    }

    method ApplyEdit(edit: Edit)
      requires Valid()
      modifies this, stack
      ensures Valid() && fresh(Members(stack) - old(Members(stack))) && checkpoints == old(checkpoints)
      ensures View() == State(Edited(old(View()).stack, [edit]), old(View()).checkpoints)
    {
      match edit {
        case Push(info) =>
          PushRecord(info);
        case Pop =>
          if stack != [] { stack := Below(stack); }
        case Overwrite(info) =>
          if stack != [] { OverwriteTop(info); }
      }
    }

    /** The rest of Update on the heap: a new record for a push, and changes made in
        place to the record on top. */
    method ApplyEdits(edits: seq<Edit>)
      requires Valid()
      modifies this, stack
      ensures Valid() && fresh(Members(stack) - old(Members(stack))) && checkpoints == old(checkpoints)
      ensures View() == State(Edited(old(View()).stack, edits), old(View()).checkpoints)
    {
      for i := 0 to |edits|
        invariant Valid() && fresh(Members(stack) - old(Members(stack))) && checkpoints == old(checkpoints)
        invariant View().checkpoints == old(View()).checkpoints
        invariant Edited(View().stack, edits[i..]) == Edited(old(View()).stack, edits)
      {
        ghost var was := View().stack;
        ApplyEdit(edits[i]);
        assert edits[i..][1..] == edits[i + 1..];
        assert Edited(was, [edits[i]]) == View().stack;
      }
    }

    /** One line: the preprocessor part, then the rest. */
    method Update(line: Line, reaction: Reaction)
      requires Valid()
      modifies this, Records()
      ensures Valid() && fresh(Records() - old(Records()))
      ensures View() == Updated(old(View()), line, reaction)
    {
      UpdatePreprocessor(line.text);
      ApplyEdits(reaction(Infos(stack), line));
    }

    /** The next line of a file, after which what remains to be done is that of the rest. */
    method UpdateNext(lines: seq<Line>, i: nat, reaction: Reaction) returns (ghost made: set<Block>)
      requires Valid() && i < |lines|
      modifies this, Records()
      ensures Valid() && fresh(made) && Records() <= old(Records()) + made
      ensures Run(lines[i..], old(View()), reaction) == Run(lines[i + 1..], View(), reaction)
    {
      ghost var before, owned := View(), Records();
      Update(lines[i], reaction);
      made := Records() - owned;
      RunNext(lines, i, before, reaction);
    }

    method UpdateAll(lines: seq<Line>, reaction: Reaction)
      requires Valid()
      modifies this, Records()
      ensures Valid() && View() == Run(lines, old(View()), reaction)
    {
      ghost var start, records := View(), Records();
      ghost var made: set<Block> := {};
      for i := 0 to |lines|
        invariant Valid()
        invariant fresh(made) && Records() <= records + made
        invariant Run(lines, start, reaction) == Run(lines[i..], View(), reaction)
      {
        ghost var more := UpdateNext(lines, i, reaction);
        made := made + more;
      }
      assert lines[|lines|..] == [];
    }
  }

  // ---------------------------------------------------------------------------
  // Only first branches matter
  // ---------------------------------------------------------------------------

  /** Lines in which conditionals are properly nested. */
  datatype Region =
    | Empty
    | Plain(line: Line, rest: Region)
    | Conditional(open: Line, first: Region, others: Branches, close: Line, rest: Region)

  datatype Branches = NoMore | Branch(start: Line, body: Region, more: Branches)

  ghost predicate WellNested(r: Region) {
    match r
    case Empty => true
    case Plain(line, rest) => DirectiveOf(line.text) == Other && WellNested(rest)
    case Conditional(open, first, others, close, rest) =>
      && DirectiveOf(open.text) == If && WellNested(first) && WellNestedBranches(others)
      && DirectiveOf(close.text) == Endif && WellNested(rest)
  }

  ghost predicate WellNestedBranches(b: Branches) {
    match b
    case NoMore => true
    case Branch(start, body, more) =>
      DirectiveOf(start.text) == Else && WellNested(body) && WellNestedBranches(more)
  }

  ghost function Lines(r: Region): seq<Line> {
    match r
    case Empty => []
    case Plain(line, rest) => [line] + Lines(rest)
    case Conditional(open, first, others, close, rest) =>
      [open] + (Lines(first) + (BranchLines(others) + ([close] + Lines(rest))))
  }

  ghost function BranchLines(b: Branches): seq<Line> {
    match b
    case NoMore => []
    case Branch(start, body, more) => [start] + (Lines(body) + BranchLines(more))
  }

  /** The same lines without any "#else" or "#elif" branch. */
  ghost function FirstBranches(r: Region): Region {
    match r
    case Empty => Empty
    case Plain(line, rest) => Plain(line, FirstBranches(rest))
    case Conditional(open, first, others, close, rest) =>
      Conditional(open, FirstBranches(first), NoMore, close, FirstBranches(rest))
  }

  lemma {:induction false} RunConcat(u: seq<Line>, v: seq<Line>, st: State, reaction: Reaction)
    ensures Run(u + v, st, reaction) == Run(v, Run(u, st, reaction), reaction)
    decreases |u|
  {
    if u == [] {
      assert u + v == v;
    } else {
      assert (u + v)[0] == u[0] && (u + v)[1..] == u[1..] + v;
      RunConcat(u[1..], v, Updated(st, u[0], reaction), reaction);
    }
  }

  lemma RunFirst(line: Line, v: seq<Line>, st: State, reaction: Reaction)
    ensures Run([line] + v, st, reaction) == Run(v, Updated(st, line, reaction), reaction)
  {
    assert ([line] + v)[1..] == v;
  }

  /** Properly nested lines leave the checkpoints as they were. */
  lemma {:induction false} RegionKeepsCheckpoints(r: Region, st: State, reaction: Reaction)
    requires WellNested(r)
    ensures Run(Lines(r), st, reaction).checkpoints == st.checkpoints
    decreases r
  {
    match r
    case Empty =>
    case Plain(line, rest) =>
      RunFirst(line, Lines(rest), st, reaction);
      RegionKeepsCheckpoints(rest, Updated(st, line, reaction), reaction);
    case Conditional(open, first, others, close, rest) =>
      ConditionalStepsInto(r, st, reaction);
      RegionKeepsCheckpoints(rest, AfterConditional(r, st, reaction), reaction);
  }

  /** The state after "#endif": that after the first branch, with its checkpoint gone. */
  ghost function AfterConditional(r: Region, st: State, reaction: Reaction): State
    requires r.Conditional?
  {
    var afterFirst := Run(Lines(r.first), Updated(st, r.open, reaction), reaction);
    State(Edited(afterFirst.stack, reaction(afterFirst.stack, r.close)), st.checkpoints)
  }

  lemma {:induction false} ConditionalStepsInto(r: Region, st: State, reaction: Reaction)
    requires r.Conditional? && WellNested(r)
    ensures Run(Lines(r), st, reaction) == Run(Lines(r.rest), AfterConditional(r, st, reaction), reaction)
    decreases r, 0
  {
    var tail := [r.close] + Lines(r.rest);
    var entered := Updated(st, r.open, reaction);
    RunFirst(r.open, Lines(r.first) + (BranchLines(r.others) + tail), st, reaction);
    RunConcat(Lines(r.first), BranchLines(r.others) + tail, entered, reaction);
    RegionKeepsCheckpoints(r.first, entered, reaction);
    var s1 := Run(Lines(r.first), entered, reaction);
    RunConcat(BranchLines(r.others), tail, s1, reaction);
    BranchesKeepFirst(r.others, s1, reaction);
    var s2 := Run(BranchLines(r.others), s1, reaction);
    RunFirst(r.close, Lines(r.rest), s2, reaction);
    assert Below(s1.checkpoints) == st.checkpoints;
  }

  /** However many further branches run, "#endif" restores what the first one left. */
  lemma {:induction false} BranchesKeepFirst(b: Branches, st: State, reaction: Reaction)
    requires WellNestedBranches(b) && st.checkpoints != []
    ensures var end := Run(BranchLines(b), st, reaction);
            end.checkpoints != [] && Preprocessed(end, Endif) == Preprocessed(st, Endif)
    decreases b
  {
    match b
    case NoMore =>
    case Branch(start, body, more) =>
      var st1 := Updated(st, start, reaction);
      RunFirst(start, Lines(body) + BranchLines(more), st, reaction);
      RunConcat(Lines(body), BranchLines(more), st1, reaction);
      RegionKeepsCheckpoints(body, st1, reaction);
      BranchesKeepFirst(more, Run(Lines(body), st1, reaction), reaction);
  }

  /** As documented: lines between "#else" or "#elif" and "#endif" do not affect the
      nesting state. Whatever each line does to the stack, and from whatever state the
      run starts, it ends as if every branch but the first were not there. */
  lemma {:induction false} OnlyFirstBranchesMatter(r: Region, st: State, reaction: Reaction)
    requires WellNested(r)
    ensures Run(Lines(r), st, reaction) == Run(Lines(FirstBranches(r)), st, reaction)
    decreases r
  {
    match r
    case Empty =>
    case Plain(line, rest) =>
      RunFirst(line, Lines(rest), st, reaction);
      RunFirst(line, Lines(FirstBranches(rest)), st, reaction);
      OnlyFirstBranchesMatter(rest, Updated(st, line, reaction), reaction);
    case Conditional(open, first, others, close, rest) =>
      var kept := FirstBranches(r);
      FirstBranchesWellNested(r);
      ConditionalStepsInto(r, st, reaction);
      ConditionalStepsInto(kept, st, reaction);
      OnlyFirstBranchesMatter(first, Updated(st, open, reaction), reaction);
      OnlyFirstBranchesMatter(rest, AfterConditional(r, st, reaction), reaction);
  }

  lemma {:induction false} FirstBranchesWellNested(r: Region)
    requires WellNested(r)
    ensures WellNested(FirstBranches(r))
  {
    match r
    case Empty =>
    case Plain(_, rest) => FirstBranchesWellNested(rest);
    case Conditional(_, first, _, _, rest) =>
      FirstBranchesWellNested(first);
      FirstBranchesWellNested(rest);
  }

  /** Further branches leave what "#if" has saved. */
  lemma {:induction false} BranchesKeepStart(b: Branches, st: State, reaction: Reaction)
    requires WellNestedBranches(b) && st.checkpoints != []
    ensures var end := Run(BranchLines(b), st, reaction);
            && end.checkpoints != [] && Below(end.checkpoints) == Below(st.checkpoints)
            && Top(end.checkpoints).beforeIf == Top(st.checkpoints).beforeIf
    decreases b
  {
    match b
    case NoMore =>
    case Branch(start, body, more) =>
      var st1 := Updated(st, start, reaction);
      RunFirst(start, Lines(body) + BranchLines(more), st, reaction);
      RunConcat(Lines(body), BranchLines(more), st1, reaction);
      RegionKeepsCheckpoints(body, st1, reaction);
      BranchesKeepStart(more, Run(Lines(body), st1, reaction), reaction);
  }

  /** Every branch starts where the conditional did: whatever the first branch and any
      number of others do to the stack, the next "#else" or "#elif" goes back to the
      stack before "#if". */
  lemma EveryBranchStartsAlike(open: Line, first: Region, before: Branches, st: State, reaction: Reaction)
    requires DirectiveOf(open.text) == If && WellNested(first) && WellNestedBranches(before)
    ensures var next := Preprocessed(Run([open] + (Lines(first) + BranchLines(before)), st, reaction), Else);
            next.stack == st.stack && next.checkpoints != [] && Below(next.checkpoints) == st.checkpoints
  {
    var entered := Updated(st, open, reaction);
    RunFirst(open, Lines(first) + BranchLines(before), st, reaction);
    RunConcat(Lines(first), BranchLines(before), entered, reaction);
    RegionKeepsCheckpoints(first, entered, reaction);
    BranchesKeepStart(before, Run(Lines(first), entered, reaction), reaction);
  }

  // ---------------------------------------------------------------------------
  // Which lines are directives
  // ---------------------------------------------------------------------------

  /** White space, '#' at a, white space, and this word at b, as a whole. */
  ghost predicate ReadsAt(text: string, a: nat, b: nat, word: string) {
    && a < b <= |text| && AllSpaces(text, 0, a) && text[a] == '#' && AllSpaces(text, a + 1, b)
    && StartsWithWord(text[b..], word)
  }

  ghost predicate Reads(text: string, word: string) { exists a: nat, b: nat :: ReadsAt(text, a, b, word) }

  lemma WordIsNoSpace(c: char)
    ensures IsWord(c) ==> !IsSpace(c)
  {
  }

  lemma ReadsIff(text: string, word: string)
    requires word != ""
    ensures var s := SkipSpaces(text);
            Reads(text, word) <==> s != "" && s[0] == '#' && LeadingWord(SkipSpaces(s[1..])) == word
  {
    var a := SkipSpacesIs(text);
    if a < |text| {
      var rest := text[a..][1..];
      assert rest == text[a + 1..];
      var d := SkipSpacesIs(rest);
      var b := a + 1 + d;
      assert rest[d..] == text[b..];
      LeadingWordIff(text[b..], word);
      forall k | a + 1 <= k < b ensures IsSpace(text[k]) { assert rest[k - a - 1] == text[k]; }
      if text[a] == '#' && StartsWithWord(text[b..], word) { assert ReadsAt(text, a, b, word); }
      if x: nat, y: nat :| ReadsAt(text, x, y, word) {
        assert x == a;
        assert text[y..][..|word|][0] == text[y];
        WordIsNoSpace(text[y]);
        assert d < |rest| ==> rest[d] == text[b];
        assert y == b;
      }
    }
  }

  /** A line is a directive exactly if it reads as one of these words. */
  lemma DirectiveIff(text: string)
    ensures DirectiveOf(text) == If <==> Reads(text, "if") || Reads(text, "ifdef") || Reads(text, "ifndef")
    ensures DirectiveOf(text) == Else <==> Reads(text, "else") || Reads(text, "elif")
    ensures DirectiveOf(text) == Endif <==> Reads(text, "endif")
  {
    forall word | word in ["if", "ifdef", "ifndef", "else", "elif", "endif"]
      ensures var s := SkipSpaces(text);
              Reads(text, word) <==> s != "" && s[0] == '#' && LeadingWord(SkipSpaces(s[1..])) == word
    {
      ReadsIff(text, word);
    }
  }

  // ---------------------------------------------------------------------------
  // What edits come to
  // ---------------------------------------------------------------------------

  lemma EditedFirst(stack: Stack, u: seq<Edit>)
    requires u != []
    ensures Edited(stack, u) == Edited(Edited(stack, [u[0]]), u[1..])
  {
    assert [u[0]][1..] == [];
    assert forall s :: Edited(s, []) == s;
  }

  lemma {:induction false} EditsInTurn(stack: Stack, u: seq<Edit>, v: seq<Edit>)
    ensures Edited(stack, u + v) == Edited(Edited(stack, u), v)
    decreases |u|
  {
    if u == [] {
      assert u + v == v;
    } else {
      assert (u + v)[0] == u[0] && (u + v)[1..] == u[1..] + v;
      EditedFirst(stack, u);
      EditedFirst(stack, u + v);
      EditsInTurn(Edited(stack, [u[0]]), u[1..], v);
    }
  }

  /** A block that was opened can be changed and closed again, and then the stack is as it
      was below it. */
  lemma EditsOfOneBlock(stack: Stack, a: BlockInfo, b: BlockInfo)
    ensures Edited(stack, [Push(a), Overwrite(b)]) == stack + [b]
    ensures Edited(stack, [Push(a), Overwrite(b), Pop]) == stack
  {
    EditsInTurn(stack, [Push(a)], [Overwrite(b)]);
    EditsInTurn(stack, [Push(a), Overwrite(b)], [Pop]);
    assert [Push(a)] + [Overwrite(b)] == [Push(a), Overwrite(b)];
    assert [Push(a), Overwrite(b)] + [Pop] == [Push(a), Overwrite(b), Pop];
  }
}
