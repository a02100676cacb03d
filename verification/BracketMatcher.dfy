/** The bracket matcher of the lint tool (test/utils/cpplint.py): a forward and a
    backward scan that carry a stack across lines and treat angle brackets
    heuristically, and the theorem that, for round, square and curly brackets, both
    find exactly the partner that plain nesting prescribes. AngleMatcher says what they
    find for angle brackets. */
module BracketMatcher {
  import opened Characters

  type Stack = seq<char>

  // ---------------------------------------------------------------------------
  // Brackets and the three regular expressions the scans use
  // ---------------------------------------------------------------------------

  predicate IsOpen(c: char) { c == '(' || c == '[' || c == '{' }

  predicate IsClose(c: char) { c == ')' || c == ']' || c == '}' }

  predicate Pairs(open: char, close: char) {
    (open == '(' && close == ')') || (open == '[' && close == ']') || (open == '{' && close == '}')
  }

  /** The word "operator" and then only white space, up to the end of the text. */
  predicate EndsWithOperator(s: string) {
    if s != "" && IsSpace(s[|s| - 1]) then EndsWithOperator(s[..|s| - 1])
    else |s| >= 8 && s[|s| - 8..] == "operator" && (|s| == 8 || !IsWord(s[|s| - 9]))
  }

  /** White space, ">=", white space, at the start of the text. */
  predicate StartsWithSpacedAtLeast(s: string) {
    |s| >= 4 && IsSpace(s[0]) && s[1] == '>' && s[2] == '=' && IsSpace(s[3])
  }

  predicate IsShift(s: string) { |s| >= 2 && s[0] == '<' && (s[1] == '<' || s[1] == '=') }

  // ---------------------------------------------------------------------------
  // Plain nesting, the reference: angle brackets and semicolons mean nothing
  // ---------------------------------------------------------------------------

  /** Every bracket in s[i..j] is closed by its own kind, properly nested. */
  ghost predicate Nested(s: string, i: int, j: int)
    requires 0 <= i <= j <= |s|
    decreases j - i
  {
    || i == j
    || (!IsOpen(s[i]) && !IsClose(s[i]) && Nested(s, i + 1, j))
    || exists k :: SplitsAt(s, i, k, j) && Nested(s, i + 1, k) && Nested(s, k + 1, j)
  }

  ghost predicate SplitsAt(s: string, i: int, k: int, j: int) {
    0 <= i < k < j <= |s| && Pairs(s[i], s[k])
  }

  /** Positions p and q of s hold a bracket and its partner. */
  ghost predicate Partners(s: string, p: int, q: int) {
    0 <= p < q < |s| && Pairs(s[p], s[q]) && Nested(s, p + 1, q)
  }

  datatype Plain = At(pos: nat) | Mismatch | Unclosed

  function PlainScan(s: string, i: nat, st: Stack): Plain
    decreases |s| - i
  {
    if i >= |s| then Unclosed
    else if IsOpen(s[i]) then PlainScan(s, i + 1, st + [s[i]])
    else if !IsClose(s[i]) then PlainScan(s, i + 1, st)
    else if st == [] || !Pairs(st[|st| - 1], s[i]) then Mismatch
    else if |st| == 1 then At(i)
    else PlainScan(s, i + 1, st[..|st| - 1])
  }

  /** Scanning over a nested stretch changes nothing. */
  lemma {:induction false} SkipNested(s: string, i: nat, j: nat, st: Stack)
    requires i <= j <= |s| && Nested(s, i, j) && st != []
    ensures PlainScan(s, i, st) == PlainScan(s, j, st)
    decreases j - i
  {
    if i == j {
    } else if !IsOpen(s[i]) && !IsClose(s[i]) && Nested(s, i + 1, j) {
      SkipNested(s, i + 1, j, st);
    } else {
      var k :| SplitsAt(s, i, k, j) && Nested(s, i + 1, k) && Nested(s, k + 1, j);
      SkipNested(s, i + 1, k, st + [s[i]]);
      assert (st + [s[i]])[..|st|] == st;
      SkipNested(s, k + 1, j, st);
    }
  }

  /** From position i, the pending brackets st are closed one after another, the
      last of them at q, with nested text in between; the innermost is closed at j. */
  ghost predicate ClosesAt(s: string, i: nat, j: nat, q: nat, st: Stack)
    decreases |st|, 0
  {
    st != [] && i <= j < |s| && Nested(s, i, j) && Pairs(st[|st| - 1], s[j]) &&
    if |st| == 1 then j == q else Closes(s, j + 1, q, st[..|st| - 1])
  }

  ghost predicate Closes(s: string, i: nat, q: nat, st: Stack)
    decreases |st|, 1
  {
    exists j: nat :: ClosesAt(s, i, j, q, st)
  }

  lemma {:induction false} FoundCloses(s: string, i: nat, q: nat, st: Stack)
    requires i <= |s| && st != [] && PlainScan(s, i, st) == At(q)
    ensures Closes(s, i, q, st)
    decreases |s| - i
  {
    if IsClose(s[i]) {
      if |st| > 1 { FoundCloses(s, i + 1, q, st[..|st| - 1]); }
      assert ClosesAt(s, i, i, q, st);
    } else if IsOpen(s[i]) {
      var st' := st + [s[i]];
      FoundCloses(s, i + 1, q, st');
      var k: nat :| ClosesAt(s, i + 1, k, q, st');
      assert st'[..|st|] == st;
      assert Closes(s, k + 1, q, st);
      var next := k + 1;
      var j: nat :| ClosesAt(s, next, j, q, st);
      assert SplitsAt(s, i, k, j);
      assert ClosesAt(s, i, j, q, st);
    } else {
      FoundCloses(s, i + 1, q, st);
      var j: nat :| ClosesAt(s, i + 1, j, q, st);
      assert ClosesAt(s, i, j, q, st);
    }
  }

  /** The plain scan finds position q exactly when q is the partner of p. */
  lemma PlainScanFindsPartner(s: string, p: nat, q: nat)
    requires p < |s| && IsOpen(s[p])
    ensures PlainScan(s, p, []) == At(q) <==> Partners(s, p, q)
  {
    assert [] + [s[p]] == [s[p]];
    if PlainScan(s, p, []) == At(q) {
      FoundCloses(s, p + 1, q, [s[p]]);
      var j: nat :| ClosesAt(s, p + 1, j, q, [s[p]]);
    }
    if Partners(s, p, q) { SkipNested(s, p + 1, q, [s[p]]); }
  }

  // ---------------------------------------------------------------------------
  // Reading right to left is reading the mirror image left to right
  // ---------------------------------------------------------------------------

  function PlainBack(s: string, i: int, st: Stack): Plain
    decreases i
  {
    if i < 0 || i >= |s| then Unclosed
    else if IsClose(s[i]) then PlainBack(s, i - 1, st + [s[i]])
    else if !IsOpen(s[i]) then PlainBack(s, i - 1, st)
    else if st == [] || !Pairs(s[i], st[|st| - 1]) then Mismatch
    else if |st| == 1 then At(i)
    else PlainBack(s, i - 1, st[..|st| - 1])
  }

  function Flip(c: char): char {
    match c
    case '(' => ')' case ')' => '('
    case '[' => ']' case ']' => '['
    case '{' => '}' case '}' => '{'
    case _ => c
  }

  ghost predicate Mirrored(s: string, m: string) {
    |m| == |s| && forall k, l :: 0 <= k < |m| && 0 <= l < |s| && k + l == |s| - 1 ==> m[k] == Flip(s[l])
  }

  function Flips(st: Stack): (f: Stack)
    ensures |f| == |st| && forall k :: 0 <= k < |st| ==> f[k] == Flip(st[k])
  {
    seq(|st|, k requires 0 <= k < |st| => Flip(st[k]))
  }

  lemma {:induction false} BackIsForwardOnMirror(s: string, m: string, i: int, st: Stack)
    requires -1 <= i < |s| && Mirrored(s, m)
    ensures PlainBack(s, i, st) ==
            match PlainScan(m, |s| - 1 - i, Flips(st))
            case At(q) => if q < |s| then At(|s| - 1 - q) else Unclosed
            case r => r
    decreases i + 1
  {
    if i == -1 {
    } else if IsClose(s[i]) {
      assert Flips(st + [s[i]]) == Flips(st) + [Flip(s[i])];
      BackIsForwardOnMirror(s, m, i - 1, st + [s[i]]);
    } else if !IsOpen(s[i]) {
      BackIsForwardOnMirror(s, m, i - 1, st);
    } else if st != [] && Pairs(s[i], st[|st| - 1]) && |st| > 1 {
      assert Flips(st[..|st| - 1]) == Flips(st)[..|st| - 1];
      BackIsForwardOnMirror(s, m, i - 1, st[..|st| - 1]);
    }
  }

  lemma {:induction false} NestedConcat(s: string, i: nat, k: nat, j: nat)
    requires i <= k <= j <= |s| && Nested(s, i, k) && Nested(s, k, j)
    ensures Nested(s, i, j)
    decreases k - i
  {
    if i == k {
    } else if !IsOpen(s[i]) && !IsClose(s[i]) && Nested(s, i + 1, k) {
      NestedConcat(s, i + 1, k, j);
    } else {
      var m :| SplitsAt(s, i, m, k) && Nested(s, i + 1, m) && Nested(s, m + 1, k);
      NestedConcat(s, m + 1, k, j);
      assert SplitsAt(s, i, m, j);
    }
  }

  lemma {:induction false} NestedMirror(s: string, m: string, i: nat, j: nat)
    requires Mirrored(s, m) && i <= j <= |s| && Nested(s, i, j)
    ensures Nested(m, |s| - j, |s| - i)
    decreases j - i
  {
    var n := |s|;
    if i == j {
    } else if !IsOpen(s[i]) && !IsClose(s[i]) && Nested(s, i + 1, j) {
      NestedMirror(s, m, i + 1, j);
      assert Nested(m, n - i, n - i);
      assert m[n - i - 1] == s[i];
      assert Nested(m, n - i - 1, n - i);
      NestedConcat(m, n - j, n - i - 1, n - i);
    } else {
      var k :| SplitsAt(s, i, k, j) && Nested(s, i + 1, k) && Nested(s, k + 1, j);
      NestedMirror(s, m, i + 1, k);
      NestedMirror(s, m, k + 1, j);
      assert SplitsAt(m, n - k - 1, n - i - 1, n - i);
      assert Nested(m, n - i, n - i);
      assert Nested(m, n - k - 1, n - i);
      NestedConcat(m, n - j, n - k - 1, n - i);
    }
  }

  lemma PartnersMirror(s: string, m: string, p: int, q: int)
    requires Mirrored(s, m) && Partners(s, p, q)
    ensures Partners(m, |s| - 1 - q, |s| - 1 - p)
  {
    NestedMirror(s, m, p + 1, q);
  }

  lemma PartnersUnmirror(s: string, m: string, p: int, q: int)
    requires Mirrored(s, m) && Partners(m, |s| - 1 - q, |s| - 1 - p)
    ensures Partners(s, p, q)
  {
    PartnersMirror(m, s, |s| - 1 - q, |s| - 1 - p);
  }

  lemma PlainBackThroughMirror(s: string, m: string, p: nat, q: nat)
    requires Mirrored(s, m) && p < |s| && q < |s| && IsClose(s[q])
    ensures PlainBack(s, q, []) == At(p) <==> Partners(m, |s| - 1 - q, |s| - 1 - p)
  {
    BackIsForwardOnMirror(s, m, q, []);
    assert m[|s| - 1 - q] == Flip(s[q]);
    PlainScanFindsPartner(m, |s| - 1 - q, |s| - 1 - p);
  }

  /** The plain backward scan finds p exactly when q is the partner of p. */
  lemma PlainBackFindsPartner(s: string, p: nat, q: nat)
    requires p < |s| && q < |s| && IsClose(s[q])
    ensures PlainBack(s, q, []) == At(p) <==> Partners(s, p, q)
  {
    var m := seq(|s|, k requires 0 <= k < |s| => Flip(s[|s| - 1 - k]));
    PlainBackThroughMirror(s, m, p, q);
    if Partners(s, p, q) { PartnersMirror(s, m, p, q); }
    if PlainBack(s, q, []) == At(p) { PartnersUnmirror(s, m, p, q); }
  }

  // ---------------------------------------------------------------------------
  // The forward scan of one line
  // ---------------------------------------------------------------------------

  datatype LineResult = Found(pos: nat) | GaveUp | Pending(stack: Stack)

  function DropPending(st: Stack, angle: char): (r: Stack)
    ensures r <= st && (r != [] ==> r[|r| - 1] != angle)
  {
    if st != [] && st[|st| - 1] == angle then DropPending(st[..|st| - 1], angle) else st
  }

  /** What the forward scan does with the character at i: the position after the
      match, giving up, or the stack to go on with. */
  function ForwardStep(line: string, i: nat, st: Stack): LineResult
    requires i < |line|
  {
    var c := line[i];
    if IsOpen(c) then Pending(st + [c])
    else if c == '<' then
      if i > 0 && line[i - 1] == '<' then
        if st != [] && st[|st| - 1] == '<' then
          if |st| == 1 then GaveUp else Pending(st[..|st| - 1])
        else Pending(st)
      else if i > 0 && EndsWithOperator(line[..i]) then Pending(st)
      else Pending(st + ['<'])
    else if IsClose(c) then
      var st' := DropPending(st, '<');
      if st' == [] || !Pairs(st'[|st'| - 1], c) then GaveUp
      else if |st'| == 1 then Found(i + 1) else Pending(st'[..|st'| - 1])
    else if c == '>' then
      if i > 0 && (line[i - 1] == '-' || EndsWithOperator(line[..i - 1])) then Pending(st)
      else if st != [] && st[|st| - 1] == '<' then
        if |st| == 1 then Found(i + 1) else Pending(st[..|st| - 1])
      else Pending(st)
    else if c == ';' then
      var st' := DropPending(st, '<');
      if st' == [] then GaveUp else Pending(st')
    else Pending(st)
  }

  function ForwardLine(line: string, i: nat, st: Stack): LineResult
    requires i <= |line|
    decreases |line| - i
  {
    if i == |line| then Pending(st)
    else match ForwardStep(line, i, st)
      case Pending(st') => ForwardLine(line, i + 1, st')
      case r => r
  }

  method FindEndOfExpressionInLine(line: string, startpos: nat, before: Stack) returns (r: LineResult)
    requires startpos <= |line|
    ensures r == ForwardLine(line, startpos, before)
  {
    var stack := before;
    for i := startpos to |line|
      invariant ForwardLine(line, startpos, before) == ForwardLine(line, i, stack)
    {
      var c := line[i];
      if IsOpen(c) {
        stack := stack + [c];
      } else if c == '<' {
        if i > 0 && line[i - 1] == '<' {
          if stack != [] && stack[|stack| - 1] == '<' {
            stack := stack[..|stack| - 1];
            if stack == [] { return GaveUp; }
          }
        } else if i > 0 && EndsWithOperator(line[..i]) {
        } else {
          stack := stack + ['<'];
        }
      } else if IsClose(c) {
        stack := DropWhile(stack, '<');
        if stack == [] { return GaveUp; }
        if Pairs(stack[|stack| - 1], c) {
          stack := stack[..|stack| - 1];
          if stack == [] { return Found(i + 1); }
        } else {
          return GaveUp;
        }
      } else if c == '>' {
        if i > 0 && (line[i - 1] == '-' || EndsWithOperator(line[..i - 1])) {
        } else if stack != [] && stack[|stack| - 1] == '<' {
          stack := stack[..|stack| - 1];
          if stack == [] { return Found(i + 1); }
        }
      } else if c == ';' {
        stack := DropWhile(stack, '<');
        if stack == [] { return GaveUp; }
      }
    }
    return Pending(stack);
  }

  method DropWhile(before: Stack, angle: char) returns (stack: Stack)
    ensures stack == DropPending(before, angle)
  {
    stack := before;
    while stack != [] && stack[|stack| - 1] == angle
      invariant DropPending(stack, angle) == DropPending(before, angle)
      decreases |stack|
    {
      stack := stack[..|stack| - 1];
    }
  }

  // ---------------------------------------------------------------------------
  // The backward scan of one line
  // ---------------------------------------------------------------------------

  /** Whether the '>' at i belongs to "->", " >= " or "operator>". */
  predicate IgnoredRight(line: string, i: nat)
    requires i < |line|
  {
    i > 0 && (line[i - 1] == '-' || StartsWithSpacedAtLeast(line[i - 1..]) || EndsWithOperator(line[..i]))
  }

  predicate IsLeftShift(line: string, i: nat)
    requires i < |line|
  {
    i > 0 && line[i - 1] == '<'
  }

  /** Whether the backward scan also jumps over the character before i. */
  predicate SkipsOne(line: string, i: nat)
    requires i < |line|
  {
    (line[i] == '>' && IgnoredRight(line, i)) || (line[i] == '<' && IsLeftShift(line, i))
  }

  function BackwardStep(line: string, i: nat, st: Stack): LineResult
    requires i < |line|
  {
    var c := line[i];
    if IsClose(c) then Pending(st + [c])
    else if c == '>' then
      if IgnoredRight(line, i) then Pending(st) else Pending(st + ['>'])
    else if c == '<' then
      if IsLeftShift(line, i) then Pending(st)
      else if st != [] && st[|st| - 1] == '>' then
        if |st| == 1 then Found(i) else Pending(st[..|st| - 1])
      else Pending(st)
    else if IsOpen(c) then
      var st' := DropPending(st, '>');
      if st' == [] || !Pairs(c, st'[|st'| - 1]) then GaveUp
      else if |st'| == 1 then Found(i) else Pending(st'[..|st'| - 1])
    else if c == ';' then
      var st' := DropPending(st, '>');
      if st' == [] then GaveUp else Pending(st')
    else Pending(st)
  }

  function BackwardLine(line: string, i: int, st: Stack): LineResult
    requires -1 <= i < |line|
    decreases i + 1
  {
    if i == -1 then Pending(st)
    else match BackwardStep(line, i, st)
      case Pending(st') => BackwardLine(line, if SkipsOne(line, i) then i - 2 else i - 1, st')
      case r => r
  }

  method FindStartOfExpressionInLine(line: string, endpos: int, before: Stack) returns (r: LineResult)
    requires -1 <= endpos < |line|
    ensures r == BackwardLine(line, endpos, before)
  {
    var stack := before;
    var i := endpos;
    while i >= 0
      invariant -1 <= i < |line|
      invariant BackwardLine(line, endpos, before) == BackwardLine(line, i, stack)
    {
      var c := line[i];
      if IsClose(c) {
        stack := stack + [c];
      } else if c == '>' {
        if IgnoredRight(line, i) {
          i := i - 1;
        } else {
          stack := stack + ['>'];
        }
      } else if c == '<' {
        if IsLeftShift(line, i) {
          i := i - 1;
        } else if stack != [] && stack[|stack| - 1] == '>' {
          stack := stack[..|stack| - 1];
          if stack == [] { return Found(i); }
        }
      } else if IsOpen(c) {
        stack := DropWhile(stack, '>');
        if stack == [] { return GaveUp; }
        if Pairs(c, stack[|stack| - 1]) {
          stack := stack[..|stack| - 1];
          if stack == [] { return Found(i); }
        } else {
          return GaveUp;
        }
      } else if c == ';' {
        stack := DropWhile(stack, '>');
        if stack == [] { return GaveUp; }
      }
      i := i - 1;
    }
    return Pending(stack);
  }

  // ---------------------------------------------------------------------------
  // The scans over many lines
  // ---------------------------------------------------------------------------

  /** The line the answer lies on, its number, and a position, -1 for no answer. */
  datatype Place = Place(line: string, linenum: nat, pos: int)

  function ForwardLines(lines: seq<string>, l: nat, start: nat, st: Stack): Place
    requires l < |lines| && start <= |lines[l]|
    decreases |lines| - l
  {
    match ForwardLine(lines[l], start, st)
    case Found(e) => Place(lines[l], l, e)
    case Pending(st') =>
      if st' != [] && l + 1 < |lines| then ForwardLines(lines, l + 1, 0, st')
      else Place(lines[l], |lines|, -1)
    case GaveUp => Place(lines[l], |lines|, -1)
  }

  function CloseOf(lines: seq<string>, l: nat, p: nat): Place
    requires l < |lines| && p < |lines[l]|
  {
    if !(IsOpen(lines[l][p]) || lines[l][p] == '<') || IsShift(lines[l][p..]) then Place(lines[l], |lines|, -1)
    else ForwardLines(lines, l, p, [])
  }

  method CloseExpression(lines: seq<string>, startLine: nat, pos: nat) returns (r: Place)
    requires startLine < |lines| && pos < |lines[startLine]|
    ensures r == CloseOf(lines, startLine, pos)
  {
    var linenum := startLine;
    var line := lines[linenum];
    if !(IsOpen(line[pos]) || line[pos] == '<') || IsShift(line[pos..]) {
      return Place(line, |lines|, -1);
    }
    var end := FindEndOfExpressionInLine(line, pos, []);
    if end.Found? { return Place(line, linenum, end.pos); }
    while end.Pending? && end.stack != [] && linenum < |lines| - 1
      invariant linenum < |lines| && line == lines[linenum]
      invariant match end
        case Pending(st) =>
          ForwardLines(lines, startLine, pos, []) ==
          if st != [] && linenum + 1 < |lines| then ForwardLines(lines, linenum + 1, 0, st)
          else Place(line, |lines|, -1)
        case GaveUp => ForwardLines(lines, startLine, pos, []) == Place(line, |lines|, -1)
        case Found(_) => false
      decreases |lines| - linenum
    {
      linenum := linenum + 1;
      line := lines[linenum];
      end := FindEndOfExpressionInLine(line, 0, end.stack);
      if end.Found? { return Place(line, linenum, end.pos); }
    }
    return Place(line, |lines|, -1);
  }

  function BackwardLines(lines: seq<string>, l: nat, start: int, st: Stack): Place
    requires l < |lines| && -1 <= start < |lines[l]|
    decreases l
  {
    match BackwardLine(lines[l], start, st)
    case Found(p) => Place(lines[l], l, p)
    case Pending(st') =>
      if st' != [] && l > 0 then BackwardLines(lines, l - 1, |lines[l - 1]| - 1, st')
      else Place(lines[l], 0, -1)
    case GaveUp => Place(lines[l], 0, -1)
  }

  function OpenOf(lines: seq<string>, l: nat, q: nat): Place
    requires l < |lines| && q < |lines[l]|
  {
    if !(IsClose(lines[l][q]) || lines[l][q] == '>') then Place(lines[l], 0, -1)
    else BackwardLines(lines, l, q, [])
  }

  method ReverseCloseExpression(lines: seq<string>, startLine: nat, pos: nat) returns (r: Place)
    requires startLine < |lines| && pos < |lines[startLine]|
    ensures r == OpenOf(lines, startLine, pos)
  {
    var linenum := startLine;
    var line := lines[linenum];
    if !(IsClose(line[pos]) || line[pos] == '>') {
      return Place(line, 0, -1);
    }
    var start := FindStartOfExpressionInLine(line, pos, []);
    if start.Found? { return Place(line, linenum, start.pos); }
    while start.Pending? && start.stack != [] && linenum > 0
      invariant linenum < |lines| && line == lines[linenum]
      invariant match start
        case Pending(st) =>
          BackwardLines(lines, startLine, pos, []) ==
          if st != [] && linenum > 0 then BackwardLines(lines, linenum - 1, |lines[linenum - 1]| - 1, st)
          else Place(line, 0, -1)
        case GaveUp => BackwardLines(lines, startLine, pos, []) == Place(line, 0, -1)
        case Found(_) => false
      decreases linenum
    {
      linenum := linenum - 1;
      line := lines[linenum];
      start := FindStartOfExpressionInLine(line, |line| - 1, start.stack);
      if start.Found? { return Place(line, linenum, start.pos); }
    }
    return Place(line, 0, -1);
  }

  // ---------------------------------------------------------------------------
  // Tentative angle brackets never change the answer
  // ---------------------------------------------------------------------------

  /** The stack without its tentative angle brackets. */
  ghost function Strip(st: Stack, angle: char): Stack {
    if st == [] then []
    else Strip(st[..|st| - 1], angle) + if st[|st| - 1] == angle then [] else [st[|st| - 1]]
  }

  /** The scan started at a bracket, not at an angle bracket. */
  ghost predicate Guarded(st: Stack, angle: char) { st != [] && st[0] != angle }

  lemma {:induction false} StripNotEmpty(st: Stack, angle: char)
    requires Guarded(st, angle)
    ensures Strip(st, angle) != []
  {
    if |st| > 1 { StripNotEmpty(st[..|st| - 1], angle); }
  }

  lemma {:induction false} StripDrop(st: Stack, angle: char)
    ensures Strip(DropPending(st, angle), angle) == Strip(st, angle)
    ensures Guarded(st, angle) ==> Guarded(DropPending(st, angle), angle)
  {
    if st != [] && st[|st| - 1] == angle { StripDrop(st[..|st| - 1], angle); }
  }

  lemma StripPush(st: Stack, c: char, angle: char)
    ensures Strip(st + [c], angle) == Strip(st, angle) + if c == angle then [] else [c]
  {
    assert (st + [c])[..|st|] == st;
  }

  lemma StripPop(st: Stack, angle: char)
    requires Guarded(st, angle) && st[|st| - 1] != angle
    ensures var p := Strip(st, angle);
            p != [] && p[|p| - 1] == st[|st| - 1] && p[..|p| - 1] == Strip(st[..|st| - 1], angle) &&
            (|p| == 1 <==> |st| == 1) && (|st| > 1 ==> Guarded(st[..|st| - 1], angle))
  {
    if |st| > 1 { StripNotEmpty(st[..|st| - 1], angle); }
  }

  /** Line `line` stands in the text at offset off. */
  ghost predicate Embedded(text: string, off: nat, line: string) {
    off + |line| <= |text| && forall k :: 0 <= k < |line| ==> line[k] == text[off + k]
  }

  /** A character that is no bracket leaves a guarded stack guarded and, stripped,
      unchanged. */
  lemma ForwardNeutral(line: string, i: nat, st: Stack)
    requires i < |line| && Guarded(st, '<') && !IsOpen(line[i]) && !IsClose(line[i])
    ensures ForwardStep(line, i, st).Pending?
    ensures var st' := ForwardStep(line, i, st).stack;
            Guarded(st', '<') && Strip(st', '<') == Strip(st, '<')
  {
    StripDrop(st, '<');
    StripPush(st, '<', '<');
  }

  lemma ForwardStepRefines(text: string, off: nat, line: string, i: nat, st: Stack)
    requires Embedded(text, off, line) && i < |line| && Guarded(st, '<')
    ensures PlainScan(text, off + i, Strip(st, '<')) ==
            match ForwardStep(line, i, st)
            case Found(e) => At(off + i)
            case GaveUp => Mismatch
            case Pending(st') => PlainScan(text, off + i + 1, Strip(st', '<'))
    ensures match ForwardStep(line, i, st)
            case Found(e) => e == i + 1
            case GaveUp => true
            case Pending(st') => Guarded(st', '<')
  {
    var c := line[i];
    assert text[off + i] == c;
    if IsOpen(c) {
      StripPush(st, c, '<');
    } else if IsClose(c) {
      StripDrop(st, '<');
      StripPop(DropPending(st, '<'), '<');
    } else {
      ForwardNeutral(line, i, st);
    }
  }

  lemma {:induction false} ForwardLineRefines(text: string, off: nat, line: string, i: nat, st: Stack)
    requires Embedded(text, off, line) && i <= |line| && Guarded(st, '<')
    ensures PlainScan(text, off + i, Strip(st, '<')) ==
            match ForwardLine(line, i, st)
            case Found(e) => if e > 0 then At(off + e - 1) else Unclosed
            case GaveUp => Mismatch
            case Pending(st') => PlainScan(text, off + |line|, Strip(st', '<'))
    ensures match ForwardLine(line, i, st)
            case Found(e) => i < e <= |line|
            case GaveUp => true
            case Pending(st') => Guarded(st', '<')
    decreases |line| - i
  {
    if i < |line| {
      ForwardStepRefines(text, off, line, i, st);
      var r := ForwardStep(line, i, st);
      if r.Pending? { ForwardLineRefines(text, off, line, i + 1, r.stack); }
    }
  }

  // ---------------------------------------------------------------------------
  // The same for the backward scan
  // ---------------------------------------------------------------------------

  lemma {:induction false} OperatorEndsPlainly(s: string)
    requires EndsWithOperator(s)
    ensures s != "" && !IsOpen(s[|s| - 1]) && !IsClose(s[|s| - 1])
  {
    if !IsSpace(s[|s| - 1]) {
      assert s[|s| - 8..][7] == "operator"[7];
    }
  }

  /** A character the backward scan jumps over is no bracket. */
  lemma SkippedIsNeutral(line: string, i: nat)
    requires i < |line| && SkipsOne(line, i)
    ensures i > 0 && !IsOpen(line[i - 1]) && !IsClose(line[i - 1])
  {
    if line[i] == '>' {
      if EndsWithOperator(line[..i]) {
        OperatorEndsPlainly(line[..i]);
      } else if line[i - 1] != '-' {
        assert line[i - 1..][0] == line[i - 1];
      }
    }
  }

  lemma BackwardNeutral(line: string, i: nat, st: Stack)
    requires i < |line| && Guarded(st, '>') && !IsOpen(line[i]) && !IsClose(line[i])
    ensures BackwardStep(line, i, st).Pending?
    ensures var st' := BackwardStep(line, i, st).stack;
            Guarded(st', '>') && Strip(st', '>') == Strip(st, '>')
  {
    StripDrop(st, '>');
    StripPush(st, '>', '>');
  }

  lemma BackwardStepRefines(text: string, off: nat, line: string, i: nat, st: Stack)
    requires Embedded(text, off, line) && i < |line| && Guarded(st, '>')
    ensures PlainBack(text, off + i, Strip(st, '>')) ==
            match BackwardStep(line, i, st)
            case Found(e) => At(off + i)
            case GaveUp => Mismatch
            case Pending(st') => PlainBack(text, off + i - 1, Strip(st', '>'))
    ensures match BackwardStep(line, i, st)
            case Found(e) => e == i
            case GaveUp => true
            case Pending(st') => Guarded(st', '>')
  {
    var c := line[i];
    assert text[off + i] == c;
    if IsClose(c) {
      StripPush(st, c, '>');
    } else if IsOpen(c) {
      StripDrop(st, '>');
      StripPop(DropPending(st, '>'), '>');
    } else {
      BackwardNeutral(line, i, st);
    }
  }

  lemma SkippedIsTransparent(text: string, off: nat, line: string, i: nat, st: Stack)
    requires Embedded(text, off, line) && i < |line| && SkipsOne(line, i)
    ensures i > 0 && PlainBack(text, off + i - 1, st) == PlainBack(text, off + i - 2, st)
  {
    SkippedIsNeutral(line, i);
    assert text[off + (i - 1)] == line[i - 1];
  }

  lemma {:induction false} BackwardLineRefines(text: string, off: nat, line: string, i: int, st: Stack)
    requires Embedded(text, off, line) && -1 <= i < |line| && Guarded(st, '>')
    ensures PlainBack(text, off + i, Strip(st, '>')) ==
            match BackwardLine(line, i, st)
            case Found(p) => At(off + p)
            case GaveUp => Mismatch
            case Pending(st') => PlainBack(text, off - 1, Strip(st', '>'))
    ensures match BackwardLine(line, i, st)
            case Found(p) => p <= i
            case GaveUp => true
            case Pending(st') => Guarded(st', '>')
    decreases i + 1
  {
    if i >= 0 {
      BackwardStepRefines(text, off, line, i, st);
      var r := BackwardStep(line, i, st);
      if r.Pending? {
        var i' := if SkipsOne(line, i) then i - 2 else i - 1;
        if SkipsOne(line, i) { SkippedIsTransparent(text, off, line, i, Strip(r.stack, '>')); }
        BackwardLineRefines(text, off, line, i', r.stack);
      }
    }
  }

  // ---------------------------------------------------------------------------
  // Many lines are one text
  // ---------------------------------------------------------------------------

  /** The first n lines, joined. */
  ghost function Joined(lines: seq<string>, n: nat): string
    requires n <= |lines|
  {
    if n == 0 then "" else Joined(lines, n - 1) + lines[n - 1]
  }

  ghost function Text(lines: seq<string>): string { Joined(lines, |lines|) }

  /** Where position p of line l stands in the joined text. */
  ghost function Offset(lines: seq<string>, l: nat, p: int): int
    requires l <= |lines|
  {
    |Joined(lines, l)| + p
  }

  lemma {:induction false} JoinedGrows(lines: seq<string>, l: nat, n: nat)
    requires l <= n <= |lines|
    ensures |Joined(lines, l)| <= |Joined(lines, n)|
    ensures Joined(lines, n)[..|Joined(lines, l)|] == Joined(lines, l)
    decreases n - l
  {
    if l < n { JoinedGrows(lines, l, n - 1); }
  }

  lemma LineIsEmbedded(lines: seq<string>, l: nat)
    requires l < |lines|
    ensures Embedded(Text(lines), Offset(lines, l, 0), lines[l])
  {
    JoinedGrows(lines, l + 1, |lines|);
    var upTo := Joined(lines, l + 1);
    forall k | 0 <= k < |lines[l]| ensures lines[l][k] == Text(lines)[Offset(lines, l, 0) + k] {
      assert upTo[|Joined(lines, l)| + k] == lines[l][k];
    }
  }

  lemma OffsetIsInjective(lines: seq<string>, l: nat, p: nat, l': nat, p': nat)
    requires l < |lines| && p < |lines[l]| && l' < |lines| && p' < |lines[l']|
    requires Offset(lines, l, p) == Offset(lines, l', p')
    ensures l == l' && p == p'
  {
    if l < l' { JoinedGrows(lines, l + 1, l'); }
    if l' < l { JoinedGrows(lines, l' + 1, l); }
  }

  lemma {:induction false} ForwardLinesRefines(lines: seq<string>, l: nat, start: nat, st: Stack)
    requires l < |lines| && start <= |lines[l]| && Guarded(st, '<')
    ensures var r := ForwardLines(lines, l, start, st);
            var plain := PlainScan(Text(lines), Offset(lines, l, start), Strip(st, '<'));
            if r.pos == -1 then r.linenum == |lines| && !plain.At?
            else r.linenum < |lines| && r.line == lines[r.linenum] && 0 < r.pos <= |r.line| &&
                 plain == At(Offset(lines, r.linenum, r.pos - 1))
    decreases |lines| - l
  {
    LineIsEmbedded(lines, l);
    ForwardLineRefines(Text(lines), Offset(lines, l, 0), lines[l], start, st);
    match ForwardLine(lines[l], start, st)
    case Found(_) =>
    case GaveUp =>
    case Pending(st') =>
      if l + 1 < |lines| { ForwardLinesRefines(lines, l + 1, 0, st'); }
  }

  lemma {:induction false} BackwardLinesRefines(lines: seq<string>, l: nat, start: int, st: Stack)
    requires l < |lines| && -1 <= start < |lines[l]| && Guarded(st, '>')
    ensures var r := BackwardLines(lines, l, start, st);
            var plain := PlainBack(Text(lines), Offset(lines, l, start), Strip(st, '>'));
            if r.pos == -1 then r.linenum == 0 && !plain.At?
            else r.linenum < |lines| && r.line == lines[r.linenum] && 0 <= r.pos < |r.line| &&
                 plain == At(Offset(lines, r.linenum, r.pos))
    decreases l
  {
    LineIsEmbedded(lines, l);
    BackwardLineRefines(Text(lines), Offset(lines, l, 0), lines[l], start, st);
    match BackwardLine(lines[l], start, st)
    case Found(_) =>
    case GaveUp =>
    case Pending(st') =>
      if l > 0 { BackwardLinesRefines(lines, l - 1, |lines[l - 1]| - 1, st'); }
  }

  // ---------------------------------------------------------------------------
  // The theorems
  // ---------------------------------------------------------------------------

  lemma CloseRefines(lines: seq<string>, l: nat, p: nat)
    requires l < |lines| && p < |lines[l]| && IsOpen(lines[l][p])
    ensures var r := CloseOf(lines, l, p);
            var plain := PlainScan(Text(lines), Offset(lines, l, p), []);
            if r.pos == -1 then r.linenum == |lines| && !plain.At?
            else r.linenum < |lines| && r.line == lines[r.linenum] && 0 < r.pos <= |r.line| &&
                 plain == At(Offset(lines, r.linenum, r.pos - 1))
  {
    var c := lines[l][p];
    FirstForwardStep(lines, l, p);
    assert Strip([c], '<') == [c] by { assert [c][..0] == []; }
    ForwardLinesRefines(lines, l, p + 1, [c]);
  }

  /** The first step of a scan pushes the bracket it starts from. */
  lemma FirstForwardStep(lines: seq<string>, l: nat, p: nat)
    requires l < |lines| && p < |lines[l]| && IsOpen(lines[l][p])
    ensures CloseOf(lines, l, p) == ForwardLines(lines, l, p + 1, [lines[l][p]])
    ensures PlainScan(Text(lines), Offset(lines, l, p), []) ==
            PlainScan(Text(lines), Offset(lines, l, p + 1), [lines[l][p]])
  {
    var c := lines[l][p];
    LineIsEmbedded(lines, l);
    assert [] + [c] == [c];
    assert ForwardLine(lines[l], p, []) == ForwardLine(lines[l], p + 1, [c]);
  }

  /** From a round, square or curly bracket, CloseExpression answers (m, e) exactly
      when the bracket before (m, e) is the partner in the joined text: tentative
      angle brackets, semicolons and line ends never matter. */
  lemma CloseFindsPartner(lines: seq<string>, l: nat, p: nat, m: nat, e: nat)
    requires l < |lines| && p < |lines[l]| && IsOpen(lines[l][p])
    requires m < |lines| && 0 < e <= |lines[m]|
    ensures CloseOf(lines, l, p) == Place(lines[m], m, e) <==>
            Partners(Text(lines), Offset(lines, l, p), Offset(lines, m, e - 1))
  {
    var c := lines[l][p];
    LineIsEmbedded(lines, l);
    PlainScanFindsPartner(Text(lines), Offset(lines, l, p), Offset(lines, m, e - 1));
    CloseRefines(lines, l, p);
    var r := CloseOf(lines, l, p);
    if r.pos != -1 && Offset(lines, r.linenum, r.pos - 1) == Offset(lines, m, e - 1) {
      OffsetIsInjective(lines, r.linenum, r.pos - 1, m, e - 1);
    }
  }

  lemma OpenRefines(lines: seq<string>, m: nat, q: nat)
    requires m < |lines| && q < |lines[m]| && IsClose(lines[m][q])
    ensures var r := OpenOf(lines, m, q);
            var plain := PlainBack(Text(lines), Offset(lines, m, q), []);
            if r.pos == -1 then r.linenum == 0 && !plain.At?
            else r.linenum < |lines| && r.line == lines[r.linenum] && 0 <= r.pos < |r.line| &&
                 plain == At(Offset(lines, r.linenum, r.pos))
  {
    var c := lines[m][q];
    LineIsEmbedded(lines, m);
    FirstStepBack(lines[m], q);
    BackwardLinesRefines(lines, m, q - 1, [c]);
  }

  lemma FirstStepBack(line: string, q: nat)
    requires q < |line| && IsClose(line[q])
    ensures Strip([line[q]], '>') == [line[q]] && BackwardLine(line, q, []) == BackwardLine(line, q - 1, [line[q]])
  {
    assert [line[q]][..0] == [] && [] + [line[q]] == [line[q]];
  }

  lemma OpenFindsPartner(lines: seq<string>, m: nat, q: nat, l: nat, p: nat)
    requires m < |lines| && q < |lines[m]| && IsClose(lines[m][q])
    requires l < |lines| && p < |lines[l]|
    ensures OpenOf(lines, m, q) == Place(lines[l], l, p) <==>
            Partners(Text(lines), Offset(lines, l, p), Offset(lines, m, q))
  {
    LineIsEmbedded(lines, m);
    LineIsEmbedded(lines, l);
    PlainBackFindsPartner(Text(lines), Offset(lines, l, p), Offset(lines, m, q));
    OpenRefines(lines, m, q);
    var r := OpenOf(lines, m, q);
    if r.pos != -1 && Offset(lines, r.linenum, r.pos) == Offset(lines, l, p) {
      OffsetIsInjective(lines, r.linenum, r.pos, l, p);
    }
  }

  /** Matching forwards from a bracket and matching backwards from its answer are
      inverse to each other, over any number of lines. */
  lemma MatchingAgrees(lines: seq<string>, l: nat, p: nat, m: nat, e: nat)
    requires l < |lines| && p < |lines[l]| && m < |lines| && 0 < e <= |lines[m]|
    requires IsOpen(lines[l][p]) || IsClose(lines[m][e - 1])
    ensures IsOpen(lines[l][p]) && CloseOf(lines, l, p) == Place(lines[m], m, e) <==>
            IsClose(lines[m][e - 1]) && OpenOf(lines, m, e - 1) == Place(lines[l], l, p)
  {
    LineIsEmbedded(lines, l);
    LineIsEmbedded(lines, m);
    if IsOpen(lines[l][p]) { CloseFindsPartner(lines, l, p, m, e); }
    if IsClose(lines[m][e - 1]) { OpenFindsPartner(lines, m, e - 1, l, p); }
  }
}
