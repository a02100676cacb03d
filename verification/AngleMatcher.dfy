/** Angle brackets in the bracket matcher of the lint tool (test/utils/cpplint.py): what
    either scan answers from a '<' or a '>', said without the scans. Each line is marked
    first: only those angle brackets remain that count for the direction of the scan. */
module AngleMatcher {
  import opened Characters
  import opened BracketMatcher

  // ---------------------------------------------------------------------------
  // The angle brackets that count
  // ---------------------------------------------------------------------------

  /** The word "operator" ends at k, and from there to i is only white space. */
  ghost predicate OperatorEndsAt(line: string, k: int, i: nat) {
    && 8 <= k <= i <= |line| && line[k - 8..k] == "operator" && (k == 8 || !IsWord(line[k - 9]))
    && forall h :: k <= h < i ==> IsSpace(line[h])
  }

  ghost predicate AfterOperator(line: string, i: nat) { exists k :: OperatorEndsAt(line, k, i) }

  lemma {:induction false} AfterOperatorIff(line: string, i: nat)
    requires i <= |line|
    ensures EndsWithOperator(line[..i]) <==> AfterOperator(line, i)
  {
    var s := line[..i];
    if i > 0 && IsSpace(line[i - 1]) {
      assert s[..i - 1] == line[..i - 1];
      AfterOperatorIff(line, i - 1);
      var before: nat := i - 1;
      if k :| OperatorEndsAt(line, k, before) { assert OperatorEndsAt(line, k, i); }
      if k :| OperatorEndsAt(line, k, i) {
        assert line[k - 8..k][7] == "operator"[7];
        assert OperatorEndsAt(line, k, before);
      }
    } else if i >= 8 {
      assert s[i - 8..] == line[i - 8..i];
      if EndsWithOperator(s) { assert OperatorEndsAt(line, i, i); }
    }
  }

  /** How many '<' follow one another from i on. */
  function LessRun(line: string, i: nat): nat
    decreases |line| - i
  {
    if i >= |line| || line[i] != '<' then 0 else 1 + LessRun(line, i + 1)
  }

  /** Read backwards: a '<' that does not belong to a "<<". Of a row of them the leftmost
      remains, if their number is odd. */
  ghost predicate IsLeftAngle(line: string, i: nat)
    requires i < |line|
  {
    line[i] == '<' && (i == 0 || line[i - 1] != '<') && LessRun(line, i) % 2 == 1
  }

  /** Read backwards: a '>' that is not of "->", " >= " or "operator>". */
  ghost predicate IsRightAngle(line: string, i: nat)
    requires i < |line|
  {
    && line[i] == '>' && !(i > 0 && line[i - 1] == '-') && !AfterOperator(line, i)
    && !(0 < i < |line| - 2 && IsSpace(line[i - 1]) && line[i + 1] == '=' && IsSpace(line[i + 2]))
  }

  /** Read forwards: a '<' that is not the second of "<<" and does not follow "operator". */
  ghost predicate StartsList(line: string, i: nat)
    requires i < |line|
  {
    line[i] == '<' && !(i > 0 && line[i - 1] == '<') && !AfterOperator(line, i)
  }

  /** Read forwards: a '>' that is not of "->"; where "operator" ends one character before,
      it does not count either. */
  ghost predicate EndsList(line: string, i: nat)
    requires i < |line|
  {
    line[i] == '>' && !(i > 0 && (line[i - 1] == '-' || AfterOperator(line, i - 1)))
  }

  predicate IsOther(c: char) { IsOpen(c) || IsClose(c) || c == ';' }

  /** The marks of a line: brackets, semicolons and the angle brackets that count. */
  ghost function MarkedBack(line: string): (r: string)
    ensures |r| == |line|
  {
    seq(|line|, i requires 0 <= i < |line| =>
      if IsOther(line[i]) then line[i]
      else if IsLeftAngle(line, i) then '<'
      else if IsRightAngle(line, i) then '>' else ' ')
  }

  /** A further '<' of a row, marked '|', ends what the one before began, but no list. */
  ghost function MarkedFore(line: string): (r: string)
    ensures |r| == |line|
  {
    seq(|line|, i requires 0 <= i < |line| =>
      if IsOther(line[i]) then line[i]
      else if StartsList(line, i) then '<'
      else if line[i] == '<' && i > 0 && line[i - 1] == '<' then '|'
      else if EndsList(line, i) then '>' else ' ')
  }

  ghost function BackMarks(lines: seq<string>): seq<string> {
    seq(|lines|, l requires 0 <= l < |lines| => MarkedBack(lines[l]))
  }

  ghost function ForeMarks(lines: seq<string>): seq<string> {
    seq(|lines|, l requires 0 <= l < |lines| => MarkedFore(lines[l]))
  }

  // ---------------------------------------------------------------------------
  // The reference: nesting of brackets and of the marked angle brackets
  // ---------------------------------------------------------------------------

  predicate IsNeutral(c: char) { !IsOther(c) && c != '<' && c != '>' && c != '|' }

  ghost predicate AngleSplit(s: string, i: int, k: int, j: int) {
    0 <= i < k < j <= |s| && s[i] == '<' && (s[k] == '>' || s[k] == '|')
  }

  /** s[i..j] is a sequence of whole brackets, in which only brackets must nest, of whole
      lists, in which the same holds, and of other characters but semicolons. */
  ghost predicate ListNested(s: string, i: int, j: int)
    requires 0 <= i <= j <= |s|
    decreases j - i
  {
    || i == j
    || (IsNeutral(s[i]) && ListNested(s, i + 1, j))
    || (exists k :: AngleSplit(s, i, k, j) && ListNested(s, i + 1, k) && ListNested(s, k + 1, j))
    || (exists k :: SplitsAt(s, i, k, j) && Nested(s, i + 1, k) && ListNested(s, k + 1, j))
  }

  /** A '<' at p and the '>' at q that ends its list. */
  ghost predicate AnglePartners(s: string, p: int, q: int) {
    0 <= p < q < |s| && s[p] == '<' && s[q] == '>' && ListNested(s, p + 1, q)
  }

  lemma {:induction false} ListConcat(s: string, i: nat, k: nat, j: nat)
    requires i <= k <= j <= |s| && ListNested(s, i, k) && ListNested(s, k, j)
    ensures ListNested(s, i, j)
    decreases k - i
  {
    if i == k {
    } else if IsNeutral(s[i]) && ListNested(s, i + 1, k) {
      ListConcat(s, i + 1, k, j);
    } else if m :| AngleSplit(s, i, m, k) && ListNested(s, i + 1, m) && ListNested(s, m + 1, k) {
      ListConcat(s, m + 1, k, j);
      assert AngleSplit(s, i, m, j);
    } else {
      var m :| SplitsAt(s, i, m, k) && Nested(s, i + 1, m) && ListNested(s, m + 1, k);
      ListConcat(s, m + 1, k, j);
      assert SplitsAt(s, i, m, j);
    }
  }

  lemma BracketIsList(s: string, i: nat, k: nat)
    requires Partners(s, i, k)
    ensures ListNested(s, i, k + 1)
  {
    var end := k + 1;
    assert ListNested(s, end, end);
    assert SplitsAt(s, i, k, end);
  }

  lemma AngleIsList(s: string, i: nat, k: nat)
    requires AngleSplit(s, i, k, k + 1) && ListNested(s, i + 1, k)
    ensures ListNested(s, i, k + 1)
  {
    var end := k + 1;
    assert ListNested(s, end, end);
    assert AngleSplit(s, i, k, end);
  }

  lemma NeutralIsList(s: string, i: nat)
    requires i < |s| && IsNeutral(s[i])
    ensures ListNested(s, i, i + 1)
  {
    var end := i + 1;
    assert ListNested(s, end, end);
  }

  // ---------------------------------------------------------------------------
  // Both scans of a marked text
  // ---------------------------------------------------------------------------

  datatype Move = Stop | Fail | Go(stack: Stack)

  function Fore(c: char, st: Stack): Move {
    if IsOpen(c) || c == '<' then Go(st + [c])
    else if IsClose(c) then
      var st' := DropPending(st, '<');
      if st' == [] || !Pairs(st'[|st'| - 1], c) then Fail
      else if |st'| == 1 then Stop else Go(st'[..|st'| - 1])
    else if (c == '>' || c == '|') && st != [] && st[|st| - 1] == '<' then
      if |st| > 1 then Go(st[..|st| - 1]) else if c == '>' then Stop else Fail
    else if c == ';' then
      var st' := DropPending(st, '<');
      if st' == [] then Fail else Go(st')
    else Go(st)
  }

  function ForeScan(s: string, i: nat, st: Stack): Plain
    decreases |s| - i
  {
    if i >= |s| then Unclosed
    else match Fore(s[i], st)
      case Stop => At(i)
      case Fail => Mismatch
      case Go(st') => ForeScan(s, i + 1, st')
  }

  function Back(c: char, st: Stack): Move {
    if IsClose(c) then Go(st + [c])
    else if c == '>' || c == '|' then Go(st + ['>'])
    else if IsOpen(c) then
      var st' := DropPending(st, '>');
      if st' == [] || !Pairs(c, st'[|st'| - 1]) then Fail
      else if |st'| == 1 then Stop else Go(st'[..|st'| - 1])
    else if c == '<' && st != [] && st[|st| - 1] == '>' then
      if |st| > 1 then Go(st[..|st| - 1]) else Stop
    else if c == ';' then
      var st' := DropPending(st, '>');
      if st' == [] then Fail else Go(st')
    else Go(st)
  }

  function BackScan(s: string, i: int, st: Stack): Plain
    decreases i
  {
    if i < 0 || i >= |s| then Unclosed
    else match Back(s[i], st)
      case Stop => At(i)
      case Fail => Mismatch
      case Go(st') => BackScan(s, i - 1, st')
  }

  /** What is under a pending bracket is not touched before that bracket is closed. */
  lemma {:induction false} DropAbove(base: Stack, g: Stack, angle: char)
    requires Guarded(g, angle)
    ensures DropPending(base + g, angle) == base + DropPending(g, angle)
    ensures DropPending(g, angle) != [] && Guarded(DropPending(g, angle), angle)
    decreases |g|
  {
    if g[|g| - 1] == angle {
      assert (base + g)[..|base + g| - 1] == base + g[..|g| - 1];
      DropAbove(base, g[..|g| - 1], angle);
    }
  }

  lemma TopAbove(base: Stack, g: Stack)
    requires base != [] && g != []
    ensures (base + g)[|base + g| - 1] == g[|g| - 1] && |base + g| > 1
    ensures (base + g)[..|base + g| - 1] == base + g[..|g| - 1]
  {
  }

  lemma ForeAbove(c: char, base: Stack, g: Stack)
    requires base != [] && Guarded(g, '<')
    ensures Fore(c, base + g) == match Fore(c, g) case Stop => Go(base) case Fail => Fail case Go(g') => Go(base + g')
  {
    if IsClose(c) || c == ';' {
      DropAbove(base, g, '<');
      TopAbove(base, DropPending(g, '<'));
    } else {
      TopAbove(base, g);
      assert forall d :: base + g + [d] == base + (g + [d]);
    }
  }

  lemma ForeNeutral(c: char, g: Stack)
    requires Guarded(g, '<') && !IsOpen(c) && !IsClose(c)
    ensures Fore(c, g).Go? && Guarded(Fore(c, g).stack, '<') && Strip(Fore(c, g).stack, '<') == Strip(g, '<')
  {
    StripDrop(g, '<');
    StripPush(g, '<', '<');
  }

  lemma ForeRefines(s: string, i: nat, g: Stack)
    requires i < |s| && Guarded(g, '<')
    ensures PlainScan(s, i, Strip(g, '<')) ==
            match Fore(s[i], g)
            case Stop => At(i)
            case Fail => Mismatch
            case Go(g') => PlainScan(s, i + 1, Strip(g', '<'))
    ensures Fore(s[i], g).Go? ==> Guarded(Fore(s[i], g).stack, '<')
  {
    var c := s[i];
    if IsOpen(c) {
      StripPush(g, c, '<');
    } else if IsClose(c) {
      StripDrop(g, '<');
      StripPop(DropPending(g, '<'), '<');
    } else {
      ForeNeutral(c, g);
    }
  }

  lemma ForeStepAbove(s: string, i: nat, base: Stack, g: Stack)
    requires base != [] && Guarded(g, '<') && i < |s|
    ensures ForeScan(s, i, base + g) ==
            match Fore(s[i], g)
            case Stop => ForeScan(s, i + 1, base)
            case Fail => Mismatch
            case Go(g') => ForeScan(s, i + 1, base + g')
  {
    ForeAbove(s[i], base, g);
  }

  /** What is left to do once the partner is found. */
  function ForeAfter(s: string, base: Stack, r: Plain): Plain {
    match r
    case At(k) => ForeScan(s, k + 1, base)
    case _ => r
  }

  /** With a bracket open the scan goes to its partner, like the plain one. */
  lemma {:induction false} ForeOverBracket(s: string, i: nat, base: Stack, g: Stack)
    requires base != [] && Guarded(g, '<') && i <= |s|
    ensures ForeScan(s, i, base + g) == ForeAfter(s, base, PlainScan(s, i, Strip(g, '<')))
    decreases |s| - i
  {
    if i < |s| {
      ForeStepAbove(s, i, base, g);
      ForeRefines(s, i, g);
      var r := Fore(s[i], g);
      if r.Go? { ForeOverBracket(s, i + 1, base, r.stack); }
    }
  }

  lemma BackAbove(c: char, base: Stack, g: Stack)
    requires base != [] && Guarded(g, '>')
    ensures Back(c, base + g) == match Back(c, g) case Stop => Go(base) case Fail => Fail case Go(g') => Go(base + g')
  {
    if IsOpen(c) || c == ';' {
      DropAbove(base, g, '>');
      TopAbove(base, DropPending(g, '>'));
    } else {
      TopAbove(base, g);
      assert forall d :: base + g + [d] == base + (g + [d]);
    }
  }

  lemma BackNeutral(c: char, g: Stack)
    requires Guarded(g, '>') && !IsOpen(c) && !IsClose(c)
    ensures Back(c, g).Go? && Guarded(Back(c, g).stack, '>') && Strip(Back(c, g).stack, '>') == Strip(g, '>')
  {
    StripDrop(g, '>');
    StripPush(g, '>', '>');
  }

  lemma BackRefines(s: string, i: nat, g: Stack)
    requires i < |s| && Guarded(g, '>')
    ensures PlainBack(s, i, Strip(g, '>')) ==
            match Back(s[i], g)
            case Stop => At(i)
            case Fail => Mismatch
            case Go(g') => PlainBack(s, i - 1, Strip(g', '>'))
    ensures Back(s[i], g).Go? ==> Guarded(Back(s[i], g).stack, '>')
  {
    var c := s[i];
    if IsClose(c) {
      StripPush(g, c, '>');
    } else if IsOpen(c) {
      StripDrop(g, '>');
      StripPop(DropPending(g, '>'), '>');
    } else {
      BackNeutral(c, g);
    }
  }

  lemma BackStepAbove(s: string, i: nat, base: Stack, g: Stack)
    requires base != [] && Guarded(g, '>') && i < |s|
    ensures BackScan(s, i, base + g) ==
            match Back(s[i], g)
            case Stop => BackScan(s, i - 1, base)
            case Fail => Mismatch
            case Go(g') => BackScan(s, i - 1, base + g')
  {
    BackAbove(s[i], base, g);
  }

  /** What is left to do once the partner is found. */
  function BackAfter(s: string, base: Stack, r: Plain): Plain {
    match r
    case At(k) => BackScan(s, k - 1, base)
    case _ => r
  }

  lemma {:induction false} BackOverBracket(s: string, i: int, base: Stack, g: Stack)
    requires base != [] && Guarded(g, '>') && -1 <= i < |s|
    ensures BackScan(s, i, base + g) == BackAfter(s, base, PlainBack(s, i, Strip(g, '>')))
    decreases i + 1
  {
    if i >= 0 {
      BackStepAbove(s, i, base, g);
      BackRefines(s, i, g);
      var r := Back(s[i], g);
      if r.Go? { BackOverBracket(s, i - 1, base, r.stack); }
    }
  }

  lemma StripOne(c: char, angle: char)
    requires c != angle
    ensures Strip([c], angle) == [c] && Guarded([c], angle)
  {
    assert [c][..0] == [];
  }

  // ---------------------------------------------------------------------------
  // The forward scan finds the end of a list
  // ---------------------------------------------------------------------------

  /** A number of lists that are still open, one in another. */
  function Angles(a: nat, angle: char): (st: Stack)
    ensures |st| == a && forall k :: 0 <= k < a ==> st[k] == angle
  {
    seq(a, _ => angle)
  }

  lemma AnglesNext(a: nat, angle: char)
    ensures Angles(a, angle) + [angle] == Angles(a + 1, angle) && Angles(a + 1, angle)[..a] == Angles(a, angle)
  {
  }

  lemma {:induction false} AnglesDrop(a: nat, angle: char)
    ensures DropPending(Angles(a, angle), angle) == []
  {
    if a > 0 {
      AnglesNext(a - 1, angle);
      AnglesDrop(a - 1, angle);
    }
  }

  /** A bracket within lists is passed over with all it encloses, or the scan fails. */
  lemma ForeFromBracket(s: string, i: nat, a: nat)
    requires i < |s| && IsOpen(s[i]) && a > 0
    ensures ForeScan(s, i, Angles(a, '<')) ==
            ForeAfter(s, Angles(a, '<'), PlainScan(s, i, []))
  {
    StripOne(s[i], '<');
    ForeOverBracket(s, i + 1, Angles(a, '<'), [s[i]]);
    assert [] + [s[i]] == [s[i]];
  }

  lemma {:induction false} SkipList(s: string, i: nat, j: nat, a: nat)
    requires i <= j <= |s| && ListNested(s, i, j) && a > 0
    ensures ForeScan(s, i, Angles(a, '<')) == ForeScan(s, j, Angles(a, '<'))
    decreases j - i
  {
    if i == j {
    } else if IsNeutral(s[i]) && ListNested(s, i + 1, j) {
      SkipList(s, i + 1, j, a);
    } else if k :| AngleSplit(s, i, k, j) && ListNested(s, i + 1, k) && ListNested(s, k + 1, j) {
      AnglesNext(a, '<');
      SkipList(s, i + 1, k, a + 1);
      SkipList(s, k + 1, j, a);
    } else {
      var k :| SplitsAt(s, i, k, j) && Nested(s, i + 1, k) && ListNested(s, k + 1, j);
      PlainScanFindsPartner(s, i, k);
      ForeFromBracket(s, i, a);
      SkipList(s, k + 1, j, a);
    }
  }

  /** The innermost of a lists that are open at i ends at j, the outermost at q. */
  ghost predicate ListClosesAt(s: string, i: nat, j: nat, q: nat, a: nat)
    decreases a, 0
  {
    && a > 0 && i <= j < |s| && ListNested(s, i, j)
    && if a == 1 then j == q && s[j] == '>' else (s[j] == '>' || s[j] == '|') && ListCloses(s, j + 1, q, a - 1)
  }

  ghost predicate ListCloses(s: string, i: nat, q: nat, a: nat)
    decreases a, 1
  {
    exists j: nat :: ListClosesAt(s, i, j, q, a)
  }

  /** What closes after a stretch of a list closes also from its start. */
  lemma ClosesEarlier(s: string, i: nat, k: nat, q: nat, a: nat)
    requires i <= k <= |s| && ListNested(s, i, k) && ListCloses(s, k, q, a)
    ensures ListCloses(s, i, q, a)
  {
    var j: nat :| ListClosesAt(s, k, j, q, a);
    ListConcat(s, i, k, j);
    assert ListClosesAt(s, i, j, q, a);
  }

  lemma CloseWithin(s: string, i: nat, q: nat, a: nat)
    requires i < |s| && s[i] == '<' && a > 0 && ListCloses(s, i + 1, q, a + 1)
    ensures ListCloses(s, i, q, a)
  {
    var k: nat :| ListClosesAt(s, i + 1, k, q, a + 1);
    AngleIsList(s, i, k);
    ClosesEarlier(s, i, k + 1, q, a);
  }

  /** What the scan does with lists open and a character that is no opening bracket. */
  lemma ForeOnAngles(c: char, a: nat)
    requires a > 0 && !IsOpen(c)
    ensures Fore(c, Angles(a, '<')) ==
            if c == '<' then Go(Angles(a + 1, '<'))
            else if IsNeutral(c) then Go(Angles(a, '<'))
            else if (c == '>' || c == '|') && a > 1 then Go(Angles(a - 1, '<'))
            else if c == '>' then Stop else Fail
  {
    AnglesNext(a, '<');
    AnglesNext(a - 1, '<');
    AnglesDrop(a, '<');
  }

  lemma {:induction false} FoundListCloses(s: string, i: nat, q: nat, a: nat)
    requires i <= |s| && a > 0 && ForeScan(s, i, Angles(a, '<')) == At(q)
    ensures ListCloses(s, i, q, a)
    decreases |s| - i
  {
    var c := s[i];
    if IsOpen(c) {
      ForeFromBracket(s, i, a);
      var k := PlainScan(s, i, []).pos;
      PlainScanFindsPartner(s, i, k);
      BracketIsList(s, i, k);
      FoundListCloses(s, k + 1, q, a);
      ClosesEarlier(s, i, k + 1, q, a);
    } else {
      ForeOnAngles(c, a);
      if c == '<' {
        FoundListCloses(s, i + 1, q, a + 1);
        CloseWithin(s, i, q, a);
      } else if IsNeutral(c) {
        FoundListCloses(s, i + 1, q, a);
        NeutralIsList(s, i);
        ClosesEarlier(s, i, i + 1, q, a);
      } else {
        if a > 1 { FoundListCloses(s, i + 1, q, a - 1); }
        assert ListClosesAt(s, i, i, q, a);
      }
    }
  }

  lemma ForeFindsPartner(s: string, p: nat, q: nat)
    requires p < |s| && s[p] == '<'
    ensures ForeScan(s, p + 1, ['<']) == At(q) <==> AnglePartners(s, p, q)
  {
    assert Angles(1, '<') == ['<'];
    if ForeScan(s, p + 1, ['<']) == At(q) {
      FoundListCloses(s, p + 1, q, 1);
      var j: nat :| ListClosesAt(s, p + 1, j, q, 1);
    }
    if AnglePartners(s, p, q) { SkipList(s, p + 1, q, 1); }
  }

  // ---------------------------------------------------------------------------
  // The backward scan finds the start of a list
  // ---------------------------------------------------------------------------

  lemma BackFromBracket(s: string, i: nat, a: nat)
    requires i < |s| && IsClose(s[i]) && a > 0
    ensures BackScan(s, i, Angles(a, '>')) ==
            BackAfter(s, Angles(a, '>'), PlainBack(s, i, []))
  {
    StripOne(s[i], '>');
    BackOverBracket(s, i - 1, Angles(a, '>'), [s[i]]);
    assert [] + [s[i]] == [s[i]];
  }

  lemma {:induction false} SkipListBack(s: string, i: nat, j: nat, a: nat)
    requires i <= j <= |s| && ListNested(s, i, j) && a > 0
    ensures BackScan(s, j - 1, Angles(a, '>')) == BackScan(s, i - 1, Angles(a, '>'))
    decreases j - i
  {
    if i == j {
    } else if IsNeutral(s[i]) && ListNested(s, i + 1, j) {
      SkipListBack(s, i + 1, j, a);
    } else if k :| AngleSplit(s, i, k, j) && ListNested(s, i + 1, k) && ListNested(s, k + 1, j) {
      SkipListBack(s, k + 1, j, a);
      AnglesNext(a, '>');
      SkipListBack(s, i + 1, k, a + 1);
    } else {
      var k :| SplitsAt(s, i, k, j) && Nested(s, i + 1, k) && ListNested(s, k + 1, j);
      SkipListBack(s, k + 1, j, a);
      PlainBackFindsPartner(s, i, k);
      BackFromBracket(s, k, a);
    }
  }

  /** The innermost of a lists that are open before j starts just before i, the outermost
      at p. */
  ghost predicate ListOpensAt(s: string, i: nat, j: nat, p: nat, a: nat)
    decreases a, 0
  {
    && a > 0 && 0 < i <= j <= |s| && s[i - 1] == '<' && ListNested(s, i, j)
    && if a == 1 then p == i - 1 else ListOpens(s, i - 1, p, a - 1)
  }

  ghost predicate ListOpens(s: string, j: nat, p: nat, a: nat)
    decreases a, 1
  {
    exists i: nat :: ListOpensAt(s, i, j, p, a)
  }

  lemma OpensLater(s: string, k: nat, j: nat, p: nat, a: nat)
    requires k <= j <= |s| && ListNested(s, k, j) && ListOpens(s, k, p, a)
    ensures ListOpens(s, j, p, a)
  {
    var i: nat :| ListOpensAt(s, i, k, p, a);
    ListConcat(s, i, k, j);
    assert ListOpensAt(s, i, j, p, a);
  }

  lemma OpenWithin(s: string, j: nat, p: nat, a: nat)
    requires 0 < j <= |s| && (s[j - 1] == '>' || s[j - 1] == '|') && a > 0 && ListOpens(s, j - 1, p, a + 1)
    ensures ListOpens(s, j, p, a)
  {
    var i: nat :| ListOpensAt(s, i, j - 1, p, a + 1);
    AngleIsList(s, i - 1, j - 1);
    OpensLater(s, i - 1, j, p, a);
  }

  /** What the scan does with lists open and a character that is no closing bracket. */
  lemma BackOnAngles(c: char, a: nat)
    requires a > 0 && !IsClose(c)
    ensures Back(c, Angles(a, '>')) ==
            if c == '>' || c == '|' then Go(Angles(a + 1, '>'))
            else if IsNeutral(c) then Go(Angles(a, '>'))
            else if c == '<' && a > 1 then Go(Angles(a - 1, '>'))
            else if c == '<' then Stop else Fail
  {
    AnglesNext(a, '>');
    AnglesNext(a - 1, '>');
    AnglesDrop(a, '>');
  }

  lemma {:induction false} BackStaysIn(s: string, i: int, st: Stack)
    ensures PlainBack(s, i, st).At? ==> PlainBack(s, i, st).pos <= i < |s|
    decreases i
  {
    if 0 <= i < |s| {
      if IsClose(s[i]) {
        BackStaysIn(s, i - 1, st + [s[i]]);
      } else if !IsOpen(s[i]) {
        BackStaysIn(s, i - 1, st);
      } else if |st| > 1 {
        BackStaysIn(s, i - 1, st[..|st| - 1]);
      }
    }
  }

  lemma BackBracketIsList(s: string, j: nat, p: nat, a: nat) returns (k: nat)
    requires 0 < j <= |s| && IsClose(s[j - 1]) && a > 0 && BackScan(s, j - 1, Angles(a, '>')) == At(p)
    ensures k < j && ListNested(s, k, j) && BackScan(s, k - 1, Angles(a, '>')) == At(p)
  {
    BackFromBracket(s, j - 1, a);
    k := PlainBack(s, j - 1, []).pos;
    BackStaysIn(s, j - 1, []);
    PlainBackFindsPartner(s, k, j - 1);
    BracketIsList(s, k, j - 1);
  }

  lemma {:induction false} FoundListOpens(s: string, j: nat, p: nat, a: nat)
    requires j <= |s| && a > 0 && BackScan(s, j - 1, Angles(a, '>')) == At(p)
    ensures ListOpens(s, j, p, a)
    decreases j
  {
    var c := s[j - 1];
    if IsClose(c) {
      var k := BackBracketIsList(s, j, p, a);
      FoundListOpens(s, k, p, a);
      OpensLater(s, k, j, p, a);
    } else {
      BackOnAngles(c, a);
      if c == '>' || c == '|' {
        FoundListOpens(s, j - 1, p, a + 1);
        OpenWithin(s, j, p, a);
      } else if IsNeutral(c) {
        FoundListOpens(s, j - 1, p, a);
        NeutralIsList(s, j - 1);
        OpensLater(s, j - 1, j, p, a);
      } else {
        if a > 1 { FoundListOpens(s, j - 1, p, a - 1); }
        assert ListOpensAt(s, j, j, p, a);
      }
    }
  }

  lemma BackFindsPartner(s: string, p: nat, q: nat)
    requires q < |s| && s[q] == '>'
    ensures BackScan(s, q - 1, ['>']) == At(p) <==> AnglePartners(s, p, q)
  {
    assert Angles(1, '>') == ['>'];
    if BackScan(s, q - 1, ['>']) == At(p) {
      FoundListOpens(s, q, p, 1);
      var i: nat :| ListOpensAt(s, i, q, p, 1);
    }
    if AnglePartners(s, p, q) { SkipListBack(s, p + 1, q, 1); }
  }

  // ---------------------------------------------------------------------------
  // Scanning lines is scanning their marks
  // ---------------------------------------------------------------------------

  lemma ForeMarkIs(line: string, i: nat)
    requires i < |line|
    ensures MarkedFore(line)[i] ==
            if IsOther(line[i]) then line[i]
            else if line[i] == '<' then
              if i > 0 && line[i - 1] == '<' then '|' else if i > 0 && EndsWithOperator(line[..i]) then ' ' else '<'
            else if line[i] == '>' then
              if i > 0 && (line[i - 1] == '-' || EndsWithOperator(line[..i - 1])) then ' ' else '>'
            else ' '
  {
    AfterOperatorIff(line, i);
    if i > 0 { AfterOperatorIff(line, i - 1); }
  }

  lemma ForeOtherIs(line: string, i: nat, st: Stack)
    requires i < |line| && IsOther(line[i])
    ensures ForwardStep(line, i, st) ==
            match Fore(MarkedFore(line)[i], st) case Stop => Found(i + 1) case Fail => GaveUp case Go(r) => Pending(r)
  {
    ForeMarkIs(line, i);
    assert MarkedFore(line)[i] == line[i];
  }

  lemma ForeLessIs(line: string, i: nat, st: Stack)
    requires i < |line| && line[i] == '<'
    ensures ForwardStep(line, i, st) ==
            match Fore(MarkedFore(line)[i], st) case Stop => Found(i + 1) case Fail => GaveUp case Go(r) => Pending(r)
  {
    ForeMarkIs(line, i);
  }

  lemma ForeGreaterIs(line: string, i: nat, st: Stack)
    requires i < |line| && line[i] == '>'
    ensures ForwardStep(line, i, st) ==
            match Fore(MarkedFore(line)[i], st) case Stop => Found(i + 1) case Fail => GaveUp case Go(r) => Pending(r)
  {
    ForeMarkIs(line, i);
  }

  lemma ForeNeutralIs(line: string, i: nat, st: Stack)
    requires i < |line| && !IsOther(line[i]) && line[i] != '<' && line[i] != '>'
    ensures ForwardStep(line, i, st) ==
            match Fore(MarkedFore(line)[i], st) case Stop => Found(i + 1) case Fail => GaveUp case Go(r) => Pending(r)
  {
    ForeMarkIs(line, i);
  }

  lemma ForeStepIs(line: string, i: nat, st: Stack)
    requires i < |line|
    ensures ForwardStep(line, i, st) ==
            match Fore(MarkedFore(line)[i], st) case Stop => Found(i + 1) case Fail => GaveUp case Go(r) => Pending(r)
  {
    if IsOther(line[i]) {
      ForeOtherIs(line, i, st);
    } else if line[i] == '<' {
      ForeLessIs(line, i, st);
    } else if line[i] == '>' {
      ForeGreaterIs(line, i, st);
    } else {
      ForeNeutralIs(line, i, st);
    }
  }

  lemma ForeKeepsPending(c: char, st: Stack)
    requires st != [] && Fore(c, st).Go?
    ensures Fore(c, st).stack != []
  {
  }

  lemma ForeLineStep(text: string, off: nat, line: string, i: nat, st: Stack)
    requires Embedded(text, off, MarkedFore(line)) && i < |line| && st != []
    ensures match ForwardStep(line, i, st)
            case Found(e) => e == i + 1 && ForeScan(text, off + i, st) == At(off + i)
            case GaveUp => ForeScan(text, off + i, st) == Mismatch
            case Pending(st') => st' != [] && ForeScan(text, off + i, st) == ForeScan(text, off + i + 1, st')
  {
    assert text[off + i] == MarkedFore(line)[i];
    ForeStepIs(line, i, st);
    if Fore(text[off + i], st).Go? { ForeKeepsPending(text[off + i], st); }
  }

  lemma {:induction false} ForeLineIs(text: string, off: nat, line: string, i: nat, st: Stack)
    requires Embedded(text, off, MarkedFore(line)) && i <= |line| && st != []
    ensures ForeScan(text, off + i, st) ==
            match ForwardLine(line, i, st)
            case Found(e) => if e > 0 then At(off + e - 1) else Unclosed
            case GaveUp => Mismatch
            case Pending(st') => ForeScan(text, off + |line|, st')
    ensures match ForwardLine(line, i, st)
            case Found(e) => i < e <= |line|
            case GaveUp => true
            case Pending(st') => st' != []
    decreases |line| - i
  {
    if i < |line| {
      ForeLineStep(text, off, line, i, st);
      var r := ForwardStep(line, i, st);
      if r.Pending? { ForeLineIs(text, off, line, i + 1, r.stack); }
    }
  }

  ghost predicate OnLines(lines: seq<string>, r: Place, at: int) { r.linenum < |lines| && 0 <= at < |lines[r.linenum]| }

  lemma {:induction false} ForeLinesIs(lines: seq<string>, l: nat, start: nat, st: Stack)
    requires l < |lines| && start <= |lines[l]| && st != []
    ensures var r := ForwardLines(lines, l, start, st);
            var scan := ForeScan(Text(ForeMarks(lines)), Offset(ForeMarks(lines), l, start), st);
            if r.pos == -1 then r.linenum == |lines| && !scan.At?
            else OnLines(lines, r, r.pos - 1) && r.line == lines[r.linenum] &&
                 scan == At(Offset(ForeMarks(lines), r.linenum, r.pos - 1))
    decreases |lines| - l
  {
    var marks := ForeMarks(lines);
    LineIsEmbedded(marks, l);
    ForeLineIs(Text(marks), Offset(marks, l, 0), lines[l], start, st);
    match ForwardLine(lines[l], start, st)
    case Found(_) =>
    case GaveUp =>
    case Pending(st') =>
      if l + 1 < |lines| { ForeLinesIs(lines, l + 1, 0, st'); }
  }

  /** The backward scan may come to i: the '<' that follow are taken two by two. */
  predicate Aligned(line: string, i: int)
    requires i < |line|
  {
    i >= 0 && line[i] == '<' ==> LessRun(line, i + 1) % 2 == 0
  }

  lemma IgnoredIff(line: string, i: nat)
    requires i < |line| && line[i] == '>'
    ensures IgnoredRight(line, i) <==> !IsRightAngle(line, i)
  {
    AfterOperatorIff(line, i);
    if i > 0 {
      var s := line[i - 1..];
      assert s[0] == line[i - 1] && s[1] == line[i];
      if i + 2 < |line| { assert s[2] == line[i + 1] && s[3] == line[i + 2]; }
    }
  }

  lemma BackMarkIs(line: string, i: nat)
    requires i < |line| && Aligned(line, i)
    ensures MarkedBack(line)[i] ==
            if IsOther(line[i]) then line[i]
            else if line[i] == '<' then (if IsLeftShift(line, i) then ' ' else '<')
            else if line[i] == '>' then (if IgnoredRight(line, i) then ' ' else '>')
            else ' '
  {
    if line[i] == '>' { IgnoredIff(line, i); }
  }

  lemma BackOtherIs(line: string, i: nat, st: Stack)
    requires i < |line| && Aligned(line, i) && IsOther(line[i])
    ensures BackwardStep(line, i, st) ==
            match Back(MarkedBack(line)[i], st) case Stop => Found(i) case Fail => GaveUp case Go(r) => Pending(r)
  {
    BackMarkIs(line, i);
    assert MarkedBack(line)[i] == line[i];
  }

  lemma BackAngleIs(line: string, i: nat, st: Stack)
    requires i < |line| && Aligned(line, i) && !IsOther(line[i])
    ensures BackwardStep(line, i, st) ==
            match Back(MarkedBack(line)[i], st) case Stop => Found(i) case Fail => GaveUp case Go(r) => Pending(r)
  {
    BackMarkIs(line, i);
  }

  lemma BackStepIs(line: string, i: nat, st: Stack)
    requires i < |line| && Aligned(line, i)
    ensures BackwardStep(line, i, st) ==
            match Back(MarkedBack(line)[i], st) case Stop => Found(i) case Fail => GaveUp case Go(r) => Pending(r)
  {
    if IsOther(line[i]) {
      BackOtherIs(line, i, st);
    } else {
      BackAngleIs(line, i, st);
    }
  }

  /** What the scan jumps over has no mark, and it stays aligned. */
  lemma SkippedHasNoMark(line: string, i: nat)
    requires i < |line| && Aligned(line, i)
    ensures SkipsOne(line, i) ==> i > 0 && MarkedBack(line)[i - 1] == ' ' && Aligned(line, i - 2)
    ensures !SkipsOne(line, i) ==> Aligned(line, i - 1)
  {
    if SkipsOne(line, i) && line[i] == '>' {
      var c := line[i - 1];
      SkippedIsNeutral(line, i);
      assert line[i - 1..][0] == c;
      if EndsWithOperator(line[..i]) { OperatorEndIsPlain(line[..i]); }
      assert c != '<' && c != '>' && c != ';';
    }
  }

  lemma OperatorEndIsPlain(s: string)
    requires EndsWithOperator(s)
    ensures s != "" && (IsSpace(s[|s| - 1]) || s[|s| - 1] == 'r')
  {
    if !IsSpace(s[|s| - 1]) { assert s[|s| - 8..][7] == "operator"[7]; }
  }

  lemma BackKeepsPending(c: char, st: Stack)
    requires st != [] && Back(c, st).Go?
    ensures Back(c, st).stack != []
  {
  }

  /** A character without mark changes nothing. */
  lemma BackSkips(text: string, i: int, st: Stack)
    requires 0 <= i < |text| && text[i] == ' '
    ensures BackScan(text, i, st) == BackScan(text, i - 1, st)
  {
  }

  lemma BackLineStep(text: string, off: nat, line: string, i: nat, st: Stack)
    requires Embedded(text, off, MarkedBack(line)) && i < |line| && Aligned(line, i) && st != []
    ensures var next := if SkipsOne(line, i) then i - 2 else i - 1;
            && -1 <= next && Aligned(line, next)
            && match BackwardStep(line, i, st)
               case Found(p) => p == i && BackScan(text, off + i, st) == At(off + i)
               case GaveUp => BackScan(text, off + i, st) == Mismatch
               case Pending(st') => st' != [] && BackScan(text, off + i, st) == BackScan(text, off + next, st')
  {
    assert text[off + i] == MarkedBack(line)[i];
    BackStepIs(line, i, st);
    SkippedHasNoMark(line, i);
    var r := Back(text[off + i], st);
    if r.Go? {
      BackKeepsPending(text[off + i], st);
      if SkipsOne(line, i) {
        assert text[off + (i - 1)] == MarkedBack(line)[i - 1];
        BackSkips(text, off + i - 1, r.stack);
      }
    }
  }

  lemma {:induction false} BackLineIs(text: string, off: nat, line: string, i: int, st: Stack)
    requires Embedded(text, off, MarkedBack(line)) && -1 <= i < |line| && Aligned(line, i) && st != []
    ensures BackScan(text, off + i, st) ==
            match BackwardLine(line, i, st)
            case Found(p) => At(off + p)
            case GaveUp => Mismatch
            case Pending(st') => BackScan(text, off - 1, st')
    ensures match BackwardLine(line, i, st)
            case Found(p) => p <= i
            case GaveUp => true
            case Pending(st') => st' != []
    decreases i + 1
  {
    if i >= 0 {
      BackLineStep(text, off, line, i, st);
      var r := BackwardStep(line, i, st);
      if r.Pending? { BackLineIs(text, off, line, if SkipsOne(line, i) then i - 2 else i - 1, r.stack); }
    }
  }

  lemma LineBefore(lines: seq<string>, l: nat)
    requires 0 < l < |lines|
    ensures Offset(BackMarks(lines), l - 1, |lines[l - 1]| - 1) == Offset(BackMarks(lines), l, 0) - 1
    ensures Aligned(lines[l - 1], |lines[l - 1]| - 1)
  {
  }

  lemma {:induction false} BackLinesIs(lines: seq<string>, l: nat, start: int, st: Stack)
    requires l < |lines| && -1 <= start < |lines[l]| && Aligned(lines[l], start) && st != []
    ensures var r := BackwardLines(lines, l, start, st);
            var scan := BackScan(Text(BackMarks(lines)), Offset(BackMarks(lines), l, start), st);
            if r.pos == -1 then r.linenum == 0 && !scan.At?
            else OnLines(lines, r, r.pos) && r.line == lines[r.linenum] &&
                 scan == At(Offset(BackMarks(lines), r.linenum, r.pos))
    decreases l
  {
    var marks := BackMarks(lines);
    LineIsEmbedded(marks, l);
    BackLineIs(Text(marks), Offset(marks, l, 0), lines[l], start, st);
    match BackwardLine(lines[l], start, st)
    case Found(_) =>
    case GaveUp =>
    case Pending(st') =>
      if l > 0 {
        LineBefore(lines, l);
        BackLinesIs(lines, l - 1, |lines[l - 1]| - 1, st');
      }
  }

  // ---------------------------------------------------------------------------
  // The theorems
  // ---------------------------------------------------------------------------

  /** The '<' at p of line l and the '>' at q of line m begin and end a list of this text. */
  ghost predicate ListMatch(marks: seq<string>, l: nat, p: nat, m: nat, q: nat) {
    && l < |marks| && p < |marks[l]| && m < |marks| && q < |marks[m]|
    && AnglePartners(Text(marks), Offset(marks, l, p), Offset(marks, m, q))
  }

  lemma MarkInText(marks: seq<string>, l: nat, p: nat)
    requires l < |marks| && p < |marks[l]|
    ensures 0 <= Offset(marks, l, p) < |Text(marks)| && Text(marks)[Offset(marks, l, p)] == marks[l][p]
  {
    LineIsEmbedded(marks, l);
  }

  /** The character at p is the first of "<<" or "<=". */
  predicate BeginsShift(line: string, p: nat)
    requires p < |line|
  {
    line[p] == '<' && p + 1 < |line| && (line[p + 1] == '<' || line[p + 1] == '=')
  }

  lemma ShiftIff(line: string, p: nat)
    requires p < |line|
    ensures IsShift(line[p..]) <==> BeginsShift(line, p)
  {
    assert line[p..][0] == line[p];
    if p + 1 < |line| { assert line[p..][1] == line[p + 1]; }
  }

  /** From any other character, and from a shift or comparison, there is no answer. */
  lemma NoMatchElsewhere(lines: seq<string>, l: nat, p: nat)
    requires l < |lines| && p < |lines[l]|
    ensures lines[l][p] !in "([{<" || BeginsShift(lines[l], p) ==> CloseOf(lines, l, p) == Place(lines[l], |lines|, -1)
    ensures lines[l][p] !in ")]}>" ==> OpenOf(lines, l, p) == Place(lines[l], 0, -1)
  {
    ShiftIff(lines[l], p);
    var c := lines[l][p];
    assert "([{<"[0] == '(' && "([{<"[1] == '[' && "([{<"[2] == '{' && "([{<"[3] == '<';
    assert ")]}>"[0] == ')' && ")]}>"[1] == ']' && ")]}>"[2] == '}' && ")]}>"[3] == '>';
  }

  lemma ListEndOfScan(lines: seq<string>, l: nat, p: nat)
    requires l < |lines| && p < |lines[l]| && StartsList(lines[l], p)
    ensures ForwardLines(lines, l, p, []) == ForwardLines(lines, l, p + 1, ['<'])
  {
    ForeStepIs(lines[l], p, []);
    assert [] + ['<'] == ['<'];
  }

  /** From a '<' that starts a list the forward scan answers (m, e) exactly when the '>'
      before (m, e) ends that list. */
  lemma ListEndIff(lines: seq<string>, l: nat, p: nat, m: nat, e: nat)
    requires l < |lines| && p < |lines[l]| && StartsList(lines[l], p) && m < |lines| && 0 < e <= |lines[m]|
    ensures ForwardLines(lines, l, p, []) == Place(lines[m], m, e) <==> ListMatch(ForeMarks(lines), l, p, m, e - 1)
  {
    var marks := ForeMarks(lines);
    ListEndOfScan(lines, l, p);
    ForeLinesIs(lines, l, p + 1, ['<']);
    MarkInText(marks, l, p);
    MarkInText(marks, m, e - 1);
    ForeFindsPartner(Text(marks), Offset(marks, l, p), Offset(marks, m, e - 1));
    var r := ForwardLines(lines, l, p, []);
    if r.pos != -1 && Offset(marks, r.linenum, r.pos - 1) == Offset(marks, m, e - 1) {
      OffsetIsInjective(marks, r.linenum, r.pos - 1, m, e - 1);
    }
  }

  /** CloseExpression from such a '<', if it begins neither "<<" nor "<=". */
  lemma LeftAngleFindsPartner(lines: seq<string>, l: nat, p: nat, m: nat, e: nat)
    requires l < |lines| && p < |lines[l]| && StartsList(lines[l], p) && !BeginsShift(lines[l], p)
    requires m < |lines| && 0 < e <= |lines[m]|
    ensures CloseOf(lines, l, p) == Place(lines[m], m, e) <==> ListMatch(ForeMarks(lines), l, p, m, e - 1)
  {
    ShiftIff(lines[l], p);
    ListEndIff(lines, l, p, m, e);
  }

  lemma RightAngleScans(lines: seq<string>, m: nat, q: nat)
    requires m < |lines| && q < |lines[m]| && IsRightAngle(lines[m], q)
    ensures MarkedBack(lines[m])[q] == '>' && Aligned(lines[m], q - 1)
    ensures OpenOf(lines, m, q) == BackwardLines(lines, m, q - 1, ['>'])
  {
    BackStepIs(lines[m], q, []);
    SkippedHasNoMark(lines[m], q);
    AfterOperatorIff(lines[m], q);
    if q > 0 { assert lines[m][q - 1..][0] == lines[m][q - 1]; }
    assert [] + ['>'] == ['>'];
  }

  /** From a '>' that counts ReverseCloseExpression answers (l, p) exactly when there stands
      a '<' that counts and that this '>' ends the list of. */
  lemma RightAngleFindsPartner(lines: seq<string>, m: nat, q: nat, l: nat, p: nat)
    requires m < |lines| && q < |lines[m]| && IsRightAngle(lines[m], q) && l < |lines| && p < |lines[l]|
    ensures OpenOf(lines, m, q) == Place(lines[l], l, p) <==> ListMatch(BackMarks(lines), l, p, m, q)
  {
    var marks := BackMarks(lines);
    RightAngleScans(lines, m, q);
    BackLinesIs(lines, m, q - 1, ['>']);
    MarkInText(marks, l, p);
    MarkInText(marks, m, q);
    BackFindsPartner(Text(marks), Offset(marks, l, p), Offset(marks, m, q));
    var r := OpenOf(lines, m, q);
    if r.pos != -1 && Offset(marks, r.linenum, r.pos) == Offset(marks, l, p) {
      OffsetIsInjective(marks, r.linenum, r.pos, l, p);
    }
  }

  lemma RightAngleOnLines(lines: seq<string>, m: nat, q: nat)
    requires m < |lines| && q < |lines[m]| && IsRightAngle(lines[m], q) && OpenOf(lines, m, q).pos != -1
    ensures var r := OpenOf(lines, m, q);
            && OnLines(lines, r, r.pos) && r.line == lines[r.linenum]
            && ListMatch(BackMarks(lines), r.linenum, r.pos, m, q)
  {
    var r := OpenOf(lines, m, q);
    RightAngleScans(lines, m, q);
    BackLinesIs(lines, m, q - 1, ['>']);
    RightAngleFindsPartner(lines, m, q, r.linenum, r.pos);
  }

  lemma MatchStartsAtMark(lines: seq<string>, l: nat, p: nat, m: nat, q: nat)
    requires ListMatch(BackMarks(lines), l, p, m, q)
    ensures l < |lines| && p < |lines[l]| && IsLeftAngle(lines[l], p)
  {
    MarkInText(BackMarks(lines), l, p);
  }

  /** Such an answer is a '<' that counts, with properly nested text up to the '>'. */
  lemma RightAngleAnswer(lines: seq<string>, m: nat, q: nat)
    requires m < |lines| && q < |lines[m]| && IsRightAngle(lines[m], q) && OpenOf(lines, m, q).pos != -1
    ensures var r := OpenOf(lines, m, q);
            && OnLines(lines, r, r.pos) && r.line == lines[r.linenum] && IsLeftAngle(lines[r.linenum], r.pos)
            && ListMatch(BackMarks(lines), r.linenum, r.pos, m, q)
            && ListEndsAt(Text(lines), Offset(lines, r.linenum, r.pos + 1), Offset(lines, m, q))
  {
    var r := OpenOf(lines, m, q);
    RightAngleOnLines(lines, m, q);
    MatchStartsAtMark(lines, r.linenum, r.pos, m, q);
    BackMarksKeepBrackets(lines);
    MatchIsNested(lines, BackMarks(lines), r.linenum, r.pos, m, q);
  }

  /** Where both directions see the same marks, both match the same angle brackets. */
  lemma AngleMatchingAgrees(lines: seq<string>, l: nat, p: nat, m: nat, e: nat)
    requires l < |lines| && p < |lines[l]| && m < |lines| && 0 < e <= |lines[m]| && ForeMarks(lines) == BackMarks(lines)
    requires StartsList(lines[l], p) && !BeginsShift(lines[l], p) && IsRightAngle(lines[m], e - 1)
    ensures CloseOf(lines, l, p) == Place(lines[m], m, e) <==> OpenOf(lines, m, e - 1) == Place(lines[l], l, p)
  {
    LeftAngleFindsPartner(lines, l, p, m, e);
    RightAngleFindsPartner(lines, m, e - 1, l, p);
  }

  // ---------------------------------------------------------------------------
  // What stands between two partners is properly nested
  // ---------------------------------------------------------------------------

  ghost predicate ListEndsAt(text: string, from: nat, at: int) { from <= at <= |text| && Nested(text, from, at) }

  lemma EndsEarlier(text: string, from: nat, mid: nat, at: nat)
    requires from <= mid <= |text| && Nested(text, from, mid) && ListEndsAt(text, mid, at)
    ensures ListEndsAt(text, from, at)
  {
    NestedConcat(text, from, mid, at);
  }

  lemma {:induction false} ListIsNested(s: string, i: nat, j: nat)
    requires i <= j <= |s| && ListNested(s, i, j)
    ensures Nested(s, i, j)
    decreases j - i
  {
    if i == j {
    } else if IsNeutral(s[i]) && ListNested(s, i + 1, j) {
      ListIsNested(s, i + 1, j);
    } else if k :| AngleSplit(s, i, k, j) && ListNested(s, i + 1, k) && ListNested(s, k + 1, j) {
      ListIsNested(s, i + 1, k);
      ListIsNested(s, k + 1, j);
      NestedConcat(s, i + 1, k, j);
    } else {
      var k :| SplitsAt(s, i, k, j) && Nested(s, i + 1, k) && ListNested(s, k + 1, j);
      ListIsNested(s, k + 1, j);
    }
  }

  predicate IsBracket(c: char) { IsOpen(c) || IsClose(c) }

  /** Both texts have the same brackets at the same places. */
  ghost predicate BracketsAlike(s: string, t: string) {
    |s| == |t| && forall k :: 0 <= k < |s| ==> (IsBracket(s[k]) || IsBracket(t[k]) ==> s[k] == t[k])
  }

  lemma {:induction false} NestedAlike(s: string, t: string, i: nat, j: nat)
    requires BracketsAlike(s, t) && i <= j <= |s| && Nested(s, i, j)
    ensures Nested(t, i, j)
    decreases j - i
  {
    if i == j {
    } else if !IsOpen(s[i]) && !IsClose(s[i]) && Nested(s, i + 1, j) {
      NestedAlike(s, t, i + 1, j);
    } else {
      var k :| SplitsAt(s, i, k, j) && Nested(s, i + 1, k) && Nested(s, k + 1, j);
      NestedAlike(s, t, i + 1, k);
      NestedAlike(s, t, k + 1, j);
      assert SplitsAt(t, i, k, j);
    }
  }

  /** Marking leaves every bracket where it is. */
  ghost predicate MarksOf(lines: seq<string>, marks: seq<string>) {
    |marks| == |lines| && forall l :: 0 <= l < |lines| ==> BracketsAlike(marks[l], lines[l])
  }

  lemma ForeMarksKeepBrackets(lines: seq<string>)
    ensures MarksOf(lines, ForeMarks(lines))
  {
  }

  lemma BackMarksKeepBrackets(lines: seq<string>)
    ensures MarksOf(lines, BackMarks(lines))
  {
  }

  lemma {:induction false} JoinedAlike(lines: seq<string>, marks: seq<string>, l: nat)
    requires MarksOf(lines, marks) && l <= |lines|
    ensures BracketsAlike(Joined(marks, l), Joined(lines, l))
  {
    if l > 0 { JoinedAlike(lines, marks, l - 1); }
  }

  lemma MatchIsNested(lines: seq<string>, marks: seq<string>, l: nat, p: nat, m: nat, q: nat)
    requires MarksOf(lines, marks) && ListMatch(marks, l, p, m, q)
    ensures ListEndsAt(Text(lines), Offset(lines, l, p + 1), Offset(lines, m, q))
  {
    JoinedAlike(lines, marks, l);
    JoinedAlike(lines, marks, m);
    JoinedAlike(lines, marks, |lines|);
    ListIsNested(Text(marks), Offset(marks, l, p + 1), Offset(marks, m, q));
    NestedAlike(Text(marks), Text(lines), Offset(marks, l, p + 1), Offset(marks, m, q));
  }

  // ---------------------------------------------------------------------------
  // Any '<', whether it counts or not
  // ---------------------------------------------------------------------------

  /** The first bracket or list-starting '<' from i on, -1 if the line ends first or a
      closing bracket or a semicolon comes first. */
  ghost function NextOpener(line: string, i: nat): (k: int)
    requires i <= |line|
    ensures k == -1 || (i <= k < |line| && (IsOpen(line[k]) || StartsList(line, k)))
    decreases |line| - i
  {
    if i == |line| || IsClose(line[i]) || line[i] == ';' then -1
    else if IsOpen(line[i]) || StartsList(line, i) then i
    else NextOpener(line, i + 1)
  }

  lemma ForeWithNothing(line: string, i: nat)
    requires i < |line| && !IsOpen(line[i]) && !StartsList(line, i)
    ensures Fore(MarkedFore(line)[i], []) == if IsOther(line[i]) then Fail else Go([])
  {
    ForeMarkIs(line, i);
    AfterOperatorIff(line, i);
  }

  lemma ScanWithNothing(lines: seq<string>, l: nat, i: nat)
    requires l < |lines| && i < |lines[l]|
    ensures var line := lines[l];
            !IsOpen(line[i]) && !StartsList(line, i) ==>
              ForwardLines(lines, l, i, []) ==
              if IsOther(line[i]) then Place(line, |lines|, -1) else ForwardLines(lines, l, i + 1, [])
  {
    var line := lines[l];
    if !IsOpen(line[i]) && !StartsList(line, i) {
      ForeStepIs(line, i, []);
      ForeWithNothing(line, i);
    }
  }

  /** With nothing open a scan passes over all that is no opener. */
  lemma {:induction false} ScanFromOpener(lines: seq<string>, l: nat, i: nat)
    requires l < |lines| && i <= |lines[l]|
    ensures var k := NextOpener(lines[l], i);
            ForwardLines(lines, l, i, []) ==
            if k == -1 then Place(lines[l], |lines|, -1) else ForwardLines(lines, l, k, [])
    decreases |lines[l]| - i
  {
    var line := lines[l];
    if i < |line| {
      ScanWithNothing(lines, l, i);
      if !IsOther(line[i]) && !StartsList(line, i) { ScanFromOpener(lines, l, i + 1); }
    }
  }

  /** What is passed over has no brackets. */
  lemma {:induction false} PassedIsNested(lines: seq<string>, l: nat, i: nat, k: nat)
    requires l < |lines| && i <= k < |lines[l]| && NextOpener(lines[l], i) == k && lines[l][k] == '<'
    ensures Offset(lines, l, k + 1) <= |Text(lines)|
    ensures Nested(Text(lines), Offset(lines, l, i), Offset(lines, l, k + 1))
    decreases k - i
  {
    LineIsEmbedded(lines, l);
    var text, at, end := Text(lines), Offset(lines, l, i), Offset(lines, l, k + 1);
    assert text[at] == lines[l][i];
    if i < k {
      PassedIsNested(lines, l, i + 1, k);
    } else {
      assert Nested(text, end, end);
    }
  }

  lemma PassedAfter(lines: seq<string>, l: nat, p: nat, k: nat)
    requires l < |lines| && p < k < |lines[l]| && NextOpener(lines[l], p) == k && lines[l][k] == '<'
    ensures Offset(lines, l, k + 1) <= |Text(lines)|
    ensures Nested(Text(lines), Offset(lines, l, p + 1), Offset(lines, l, k + 1))
  {
    PassedIsNested(lines, l, p + 1, k);
  }

  /** The answer is on a line of the file, just after that character. */
  ghost predicate AnswersWith(lines: seq<string>, r: Place, c: char) {
    OnLines(lines, r, r.pos - 1) && lines[r.linenum][r.pos - 1] == c
  }

  lemma ListMatchOnLines(lines: seq<string>, l: nat, k: nat)
    requires l < |lines| && k < |lines[l]| && StartsList(lines[l], k) && ForwardLines(lines, l, k, []).pos != -1
    ensures var r := ForwardLines(lines, l, k, []);
            AnswersWith(lines, r, '>') && ListMatch(ForeMarks(lines), l, k, r.linenum, r.pos - 1)
  {
    var r := ForwardLines(lines, l, k, []);
    ListEndOfScan(lines, l, k);
    ForeLinesIs(lines, l, k + 1, ['<']);
    ListEndIff(lines, l, k, r.linenum, r.pos);
    MarkInText(ForeMarks(lines), r.linenum, r.pos - 1);
  }

  /** A match from the next opener, a '<', is the end of its list, and what stands between
      is properly nested, from any earlier place. */
  lemma ListMatchFrom(lines: seq<string>, l: nat, p: nat, k: nat)
    requires l < |lines| && p <= k < |lines[l]| && NextOpener(lines[l], p) == k && lines[l][k] == '<'
    requires ForwardLines(lines, l, k, []).pos != -1
    ensures var r := ForwardLines(lines, l, k, []);
            && AnswersWith(lines, r, '>') && ListMatch(ForeMarks(lines), l, k, r.linenum, r.pos - 1)
            && ListEndsAt(Text(lines), Offset(lines, l, p + 1), Offset(lines, r.linenum, r.pos - 1))
  {
    var r := ForwardLines(lines, l, k, []);
    ListMatchOnLines(lines, l, k);
    ForeMarksKeepBrackets(lines);
    MatchIsNested(lines, ForeMarks(lines), l, k, r.linenum, r.pos - 1);
    if p < k {
      PassedAfter(lines, l, p, k);
      EndsEarlier(Text(lines), Offset(lines, l, p + 1), Offset(lines, l, k + 1), Offset(lines, r.linenum, r.pos - 1));
    }
  }

  /** A match of a bracket ends with a bracket. */
  lemma BracketMatchIsBracket(lines: seq<string>, l: nat, k: nat)
    requires l < |lines| && k < |lines[l]| && IsOpen(lines[l][k]) && CloseOf(lines, l, k).pos != -1
    ensures var r := CloseOf(lines, l, k);
            && OnLines(lines, r, r.pos - 1) && Pairs(lines[l][k], lines[r.linenum][r.pos - 1])
            && Partners(Text(lines), Offset(lines, l, k), Offset(lines, r.linenum, r.pos - 1))
  {
    var r := CloseOf(lines, l, k);
    CloseRefines(lines, l, k);
    CloseFindsPartner(lines, l, k, r.linenum, r.pos);
    LineIsEmbedded(lines, l);
    LineIsEmbedded(lines, r.linenum);
  }

  /** What CloseExpression answers from a '<' that is no shift or comparison: the answer
      from the next opener at or after it, if there is one. */
  lemma AngleAnswer(lines: seq<string>, l: nat, p: nat)
    requires l < |lines| && p < |lines[l]| && lines[l][p] == '<' && !BeginsShift(lines[l], p)
    ensures var k := NextOpener(lines[l], p);
            && CloseOf(lines, l, p) == (if k == -1 then Place(lines[l], |lines|, -1) else ForwardLines(lines, l, k, []))
            && (k != -1 && IsOpen(lines[l][k]) ==> CloseOf(lines, l, p) == CloseOf(lines, l, k))
            && (!StartsList(lines[l], p) ==> CloseOf(lines, l, p) == ForwardLines(lines, l, p + 1, []))
  {
    var k := NextOpener(lines[l], p);
    ShiftIff(lines[l], p);
    ScanFromOpener(lines, l, p);
    ScanWithNothing(lines, l, p);
    if k != -1 && IsOpen(lines[l][k]) { assert lines[l][k..][0] == lines[l][k]; }
  }

  /** The answer from a '<' that begins neither "<<" nor "<=" is a '>' exactly when the next
      opener is a '<' that starts a list with an end, and then it is that end, with properly
      nested text between. It is a bracket, the partner of another, exactly when the next
      opener is a bracket that has one. There is no other answer. */
  lemma AngleMatchIff(lines: seq<string>, l: nat, p: nat)
    requires l < |lines| && p < |lines[l]| && lines[l][p] == '<' && !BeginsShift(lines[l], p)
    ensures var k, r := NextOpener(lines[l], p), CloseOf(lines, l, p);
            && (AnswersWith(lines, r, '>') <==>
                k != -1 && lines[l][k] == '<' && exists m, q :: ListMatch(ForeMarks(lines), l, k, m, q))
            && (AnswersWith(lines, r, '>') ==>
                && ListMatch(ForeMarks(lines), l, k, r.linenum, r.pos - 1)
                && ListEndsAt(Text(lines), Offset(lines, l, p + 1), Offset(lines, r.linenum, r.pos - 1)))
            && (r.pos != -1 && !AnswersWith(lines, r, '>') <==>
                k != -1 && IsOpen(lines[l][k]) && CloseOf(lines, l, k).pos != -1)
  {
    AngleAnswer(lines, l, p);
    var k := NextOpener(lines[l], p);
    if k != -1 && lines[l][k] == '<' {
      if ForwardLines(lines, l, k, []).pos != -1 { ListMatchFrom(lines, l, p, k); }
      if m: nat, q: nat :| ListMatch(ForeMarks(lines), l, k, m, q) { ListEndIff(lines, l, k, m, q + 1); }
    } else if k != -1 && CloseOf(lines, l, k).pos != -1 {
      BracketMatchIsBracket(lines, l, k);
    }
  }

  /** A list-starting '<' is answered with a '>' or not at all. */
  lemma AngleMatchIsNested(lines: seq<string>, l: nat, p: nat)
    requires l < |lines| && p < |lines[l]| && StartsList(lines[l], p) && CloseOf(lines, l, p).pos != -1
    ensures var r := CloseOf(lines, l, p);
            && AnswersWith(lines, r, '>')
            && ListEndsAt(Text(lines), Offset(lines, l, p + 1), Offset(lines, r.linenum, r.pos - 1))
  {
    AngleMatchIff(lines, l, p);
  }

  /** The forward scan looks for "operator" one character too early: the '>' of "operator>"
      counts as the end of a list, as it does not backwards, and that of "operator >" does
      not. */
  lemma OperatorGreaterCounts()
    ensures EndsList("operator>", 8) && !IsRightAngle("operator>", 8)
    ensures !EndsList("operator >", 9) && !IsRightAngle("operator >", 9)
  {
    var s, t := "operator>", "operator >";
    assert s[0..8] == "operator" && t[0..8] == "operator";
    assert OperatorEndsAt(s, 8, 8) && OperatorEndsAt(t, 8, 8) && OperatorEndsAt(t, 8, 9);
  }

  /** A '<' answered with a bracket: in "operator<()" the scan passes over it with nothing
      open and answers with the end of the parameter list. */
  lemma OperatorLessIsMisread()
    ensures CloseOf(["operator<()"], 0, 8) == Place("operator<()", 0, 11)
  {
    var line := "operator<()";
    assert line[..8] == "operator";
    assert line[8..][1] == '(';
    assert ForwardStep(line, 8, []) == Pending([]);
    assert ForwardStep(line, 9, []) == Pending(['(']);
    assert DropPending(['('], '<') == ['('];
    assert ForwardStep(line, 10, ['(']) == Found(11);
    assert ForwardLine(line, 10, ['(']) == Found(11);
    assert ForwardLine(line, 9, []) == Found(11);
    assert ForwardLine(line, 8, []) == Found(11);
  }

  // ---------------------------------------------------------------------------
  // Any '>', whether it counts or not
  // ---------------------------------------------------------------------------

  /** The first mark of a closing bracket or '>' from i back, -1 if the line begins first or
      an opening bracket or a semicolon comes first. */
  function PrevCloser(marks: string, i: int): (k: int)
    requires -1 <= i < |marks|
    ensures k == -1 || (0 <= k <= i && (IsClose(marks[k]) || marks[k] == '>'))
    decreases i + 1
  {
    if i == -1 || IsOpen(marks[i]) || marks[i] == ';' then -1
    else if IsClose(marks[i]) || marks[i] == '>' then i
    else PrevCloser(marks, i - 1)
  }

  function NextBack(line: string, i: nat): int
    requires i < |line|
  {
    if SkipsOne(line, i) then i - 2 else i - 1
  }

  lemma NextBackIsAligned(line: string, i: nat)
    requires i < |line| && Aligned(line, i)
    ensures -1 <= NextBack(line, i) && Aligned(line, NextBack(line, i))
    ensures NextBack(line, i) < i - 1 ==> i > 0 && MarkedBack(line)[i - 1] == ' '
  {
    SkippedHasNoMark(line, i);
  }

  lemma NextCloserIsSame(line: string, i: nat)
    requires i < |line| && Aligned(line, i)
    ensures -1 <= NextBack(line, i)
    ensures PrevCloser(MarkedBack(line), NextBack(line, i)) == PrevCloser(MarkedBack(line), i - 1)
  {
    NextBackIsAligned(line, i);
  }

  lemma BackStepWithNothing(line: string, i: nat)
    requires i < |line| && Aligned(line, i)
    ensures var c := MarkedBack(line)[i];
            !IsClose(c) && c != '>' ==> BackwardStep(line, i, []) == if IsOther(c) then GaveUp else Pending([])
  {
    BackStepIs(line, i, []);
  }

  lemma BackWithNothing(lines: seq<string>, l: nat, i: nat)
    requires l < |lines| && i < |lines[l]| && Aligned(lines[l], i)
    ensures -1 <= NextBack(lines[l], i)
    ensures var c := MarkedBack(lines[l])[i];
            !IsClose(c) && c != '>' ==>
              BackwardLines(lines, l, i, []) ==
              if IsOther(c) then Place(lines[l], 0, -1) else BackwardLines(lines, l, NextBack(lines[l], i), [])
  {
    BackStepWithNothing(lines[l], i);
    NextBackIsAligned(lines[l], i);
  }

  /** With nothing open the scan passes over all that is no closer. */
  lemma {:induction false} ScanFromCloser(lines: seq<string>, l: nat, i: int)
    requires l < |lines| && -1 <= i < |lines[l]| && Aligned(lines[l], i)
    ensures var k := PrevCloser(MarkedBack(lines[l]), i);
            BackwardLines(lines, l, i, []) ==
            if k == -1 then Place(lines[l], 0, -1) else BackwardLines(lines, l, k, [])
    decreases i + 1
  {
    if i >= 0 {
      var c := MarkedBack(lines[l])[i];
      BackWithNothing(lines, l, i);
      NextBackIsAligned(lines[l], i);
      NextCloserIsSame(lines[l], i);
      if !IsOther(c) && c != '>' { ScanFromCloser(lines, l, NextBack(lines[l], i)); }
    }
  }

  /** A '>' that does not count is answered like the next closer before it on its line, or
      not at all. */
  lemma IgnoredRightAnswer(lines: seq<string>, m: nat, q: nat)
    requires m < |lines| && q < |lines[m]| && lines[m][q] == '>'
    ensures var k := PrevCloser(MarkedBack(lines[m]), q);
            && OpenOf(lines, m, q) == (if k == -1 then Place(lines[m], 0, -1) else OpenOf(lines, m, k))
            && (k == q <==> IsRightAngle(lines[m], q))
  {
    ScanFromCloser(lines, m, q);
  }
}
