/** The multi-line comment eraser of the lint tool (test/utils/cpplint.py), which
    overwrites the lines of a list in place. */
module CommentEraser {
  import opened Options
  import opened Characters

  const BLANK := "/**/"

  function TrimEnd(s: string): string {
    if s != "" && IsSpace(s[|s| - 1]) then TrimEnd(s[..|s| - 1]) else s
  }

  function Strip(s: string): string { TrimEnd(SkipSpaces(s)) }

  predicate EndAt(s: string, k: nat) { k + 1 < |s| && s[k] == '*' && s[k + 1] == '/' }

  // The first end marker at or after position from, or -1.
  function FindEnd(s: string, from: nat): int
    decreases |s| - from
  {
    if from >= |s| then -1 else if EndAt(s, from) then from else FindEnd(s, from + 1)
  }

  /** The line opens a comment and does not close it from its third character on. */
  predicate IsStart(line: string) {
    var s := Strip(line);
    |s| >= 2 && s[0] == '/' && s[1] == '*' && FindEnd(s, 2) < 0
  }

  predicate IsEnd(line: string) {
    var s := Strip(line);
    |s| >= 2 && EndAt(s, |s| - 2)
  }

  method FindNextMultiLineCommentStart(lines: array<string>, from: nat) returns (r: nat)
    requires from <= lines.Length
    ensures from <= r <= lines.Length && (r < lines.Length ==> IsStart(lines[r]))
    ensures forall k :: from <= k < r ==> !IsStart(lines[k])
  {
    r := from;
    while r < lines.Length
      invariant from <= r <= lines.Length && forall k :: from <= k < r ==> !IsStart(lines[k])
    {
      if IsStart(lines[r]) { return; }
      r := r + 1;
    }
  }

  method FindNextMultiLineCommentEnd(lines: array<string>, from: nat) returns (r: nat)
    requires from <= lines.Length
    ensures from <= r <= lines.Length && (r < lines.Length ==> IsEnd(lines[r]))
    ensures forall k :: from <= k < r ==> !IsEnd(lines[k])
  {
    r := from;
    while r < lines.Length
      invariant from <= r <= lines.Length && forall k :: from <= k < r ==> !IsEnd(lines[k])
    {
      if IsEnd(lines[r]) { return; }
      r := r + 1;
    }
  }

  method RemoveMultiLineCommentsFromRange(lines: array<string>, begin: nat, end: nat)
    requires begin <= end <= lines.Length
    modifies lines
    ensures forall k :: 0 <= k < lines.Length ==> lines[k] == if begin <= k < end then BLANK else old(lines[k])
  {
    for i := begin to end
      invariant forall k :: 0 <= k < lines.Length ==> lines[k] == if begin <= k < i then BLANK else old(lines[k])
    {
      lines[i] := BLANK;
    }
  }

  // ---------------------------------------------------------------------------
  // The reference: one bit, carried from line to line
  // ---------------------------------------------------------------------------

  /** A comment opened on an earlier line is still open before line k. */
  ghost predicate Inside(lines: seq<string>, k: nat)
    requires k <= |lines|
    decreases k, 0
  {
    k > 0 && InComment(lines, k - 1) && !IsEnd(lines[k - 1])
  }

  ghost predicate InComment(lines: seq<string>, k: nat)
    requires k < |lines|
    decreases k, 1
  {
    Inside(lines, k) || IsStart(lines[k])
  }

  /** Where the comment that is still open before line k was opened. */
  ghost function Opening(lines: seq<string>, k: nat): (b: nat)
    requires k <= |lines| && Inside(lines, k)
    ensures b < k && IsStart(lines[b]) && !Inside(lines, b)
    ensures forall i :: b <= i < k ==> InComment(lines, i) && !IsEnd(lines[i])
  {
    assert InComment(lines, k - 1);
    if Inside(lines, k - 1) then Opening(lines, k - 1) else k - 1
  }

  /** The lines with every comment line before line m blanked. */
  ghost function Blanked(lines: seq<string>, m: nat): (r: seq<string>)
    requires m <= |lines|
    ensures |r| == |lines|
    ensures forall k :: 0 <= k < |lines| ==> r[k] == if k < m && InComment(lines, k) then BLANK else lines[k]
  {
    seq(|lines|, k requires 0 <= k < |lines| => if k < m && InComment(lines, k) then BLANK else lines[k])
  }

  /** The result: all comment lines are blanked, or, when a comment never ends, those
      before it, and the line it starts on is reported, counted from one. */
  ghost function Outcome(lines: seq<string>): (seq<string>, Option<nat>) {
    if !Inside(lines, |lines|) then (Blanked(lines, |lines|), None)
    else
      var b := Opening(lines, |lines|);
      (Blanked(lines, b), Some(b + 1))
  }

  lemma {:induction false} QuietUpTo(lines: seq<string>, i: nat, k: nat)
    requires i <= k <= |lines| && !Inside(lines, i) && forall j :: i <= j < k ==> !IsStart(lines[j])
    ensures !Inside(lines, k) && forall j :: i <= j < k ==> !InComment(lines, j)
    decreases k - i
  {
    if i < k { QuietUpTo(lines, i, k - 1); }
  }

  lemma {:induction false} OpenUpTo(lines: seq<string>, b: nat, k: nat)
    requires b < k <= |lines| && IsStart(lines[b]) && !Inside(lines, b)
    requires forall j :: b <= j < k ==> !IsEnd(lines[j])
    ensures Inside(lines, k) && Opening(lines, k) == b
    ensures forall j :: b <= j < k ==> InComment(lines, j)
    decreases k
  {
    if b + 1 < k { OpenUpTo(lines, b, k - 1); }
  }

  lemma CommentIsClosed(lines: seq<string>, b: nat, e: nat)
    requires b <= e < |lines| && IsStart(lines[b]) && !Inside(lines, b) && IsEnd(lines[e])
    requires forall j :: b <= j < e ==> !IsEnd(lines[j])
    ensures (forall k :: b <= k <= e ==> InComment(lines, k))
    ensures !Inside(lines, e + 1)
  {
    if b < e { OpenUpTo(lines, b, e); }
  }

  lemma SameUpTo(lines: seq<string>, i: nat, k: nat)
    requires i <= k <= |lines| && !Inside(lines, i) && forall j :: i <= j < k ==> !IsStart(lines[j])
    ensures !Inside(lines, k) && Blanked(lines, k) == Blanked(lines, i)
  {
    QuietUpTo(lines, i, k);
  }

  /** Lines before i are as the reference has them, the others still as they were. */
  ghost predicate ErasedUpTo(lines: seq<string>, was: seq<string>, i: nat) {
    |lines| == |was| && i <= |was| && !Inside(was, i) && lines == Blanked(was, i)
  }

  lemma RestIsAsItWas(lines: seq<string>, was: seq<string>, i: nat)
    requires ErasedUpTo(lines, was, i)
    ensures forall k :: i <= k < |was| ==> lines[k] == was[k]
  {
  }

  lemma ErasedNext(lines: seq<string>, before: seq<string>, was: seq<string>, begin: nat, end: nat)
    requires ErasedUpTo(before, was, begin) && begin <= end < |was| == |lines|
    requires IsStart(was[begin]) && IsEnd(was[end]) && forall j :: begin <= j < end ==> !IsEnd(was[j])
    requires forall k :: 0 <= k < |was| ==> lines[k] == if begin <= k <= end then BLANK else before[k]
    ensures ErasedUpTo(lines, was, end + 1)
  {
    CommentIsClosed(was, begin, end);
    assert lines == Blanked(was, end + 1);
  }

  lemma NextStartIs(lines: seq<string>, was: seq<string>, from: nat, begin: nat)
    requires ErasedUpTo(lines, was, from) && from <= begin <= |was|
    requires forall k :: from <= k < begin ==> !IsStart(lines[k])
    ensures ErasedUpTo(lines, was, begin)
  {
    RestIsAsItWas(lines, was, from);
    SameUpTo(was, from, begin);
  }

  /** Where the next comment begins and where it ends, each the end of the list if there
      is no such line. */
  method FindNextComment(lines: array<string>, from: nat, ghost was: seq<string>) returns (begin: nat, end: nat)
    requires from <= lines.Length && ErasedUpTo(lines[..], was, from)
    ensures from <= begin <= end <= lines.Length && ErasedUpTo(lines[..], was, begin)
    ensures begin < lines.Length ==> IsStart(lines[..][begin])
    ensures end < lines.Length ==> IsEnd(lines[..][end])
    ensures forall k :: begin <= k < end ==> !IsEnd(lines[..][k])
  {
    begin := FindNextMultiLineCommentStart(lines, from);
    NextStartIs(lines[..], was, from, begin);
    end := FindNextMultiLineCommentEnd(lines, begin);
  }

  lemma NeverEnds(lines: seq<string>, was: seq<string>, begin: nat)
    requires ErasedUpTo(lines, was, begin) && begin < |was| && IsStart(lines[begin])
    requires forall k :: begin <= k < |was| ==> !IsEnd(lines[k])
    ensures (lines, Some(begin + 1)) == Outcome(was)
  {
    RestIsAsItWas(lines, was, begin);
    OpenUpTo(was, begin, |was|);
  }

  /** One round of the loop: erase the next comment, if there is one and it ends. */
  method RemoveNextComment(lines: array<string>, from: nat, ghost was: seq<string>)
    returns (next: nat, error: Option<nat>)
    requires from < lines.Length && ErasedUpTo(lines[..], was, from)
    modifies lines
    ensures from < next <= lines.Length
    ensures error.None? ==> ErasedUpTo(lines[..], was, next)
    ensures error.Some? ==> (lines[..], error) == Outcome(was)
  {
    var begin, end := FindNextComment(lines, from, was);
    if begin >= lines.Length { return lines.Length, None; }
    if end >= lines.Length {
      NeverEnds(lines[..], was, begin);
      return lines.Length, Some(begin + 1);
    }
    ghost var before := lines[..];
    RestIsAsItWas(before, was, begin);
    RemoveMultiLineCommentsFromRange(lines, begin, end + 1);
    ErasedNext(lines[..], before, was, begin, end);
    return end + 1, None;
  }

  method RemoveMultiLineComments(lines: array<string>) returns (error: Option<nat>)
    modifies lines
    ensures (lines[..], error) == Outcome(old(lines[..]))
  {
    ghost var was := lines[..];
    var lineix := 0;
    while lineix < lines.Length
      invariant ErasedUpTo(lines[..], was, lineix)
    {
      lineix, error := RemoveNextComment(lines, lineix, was);
      if error.Some? { return; }
    }
    return None;
  }

  // ---------------------------------------------------------------------------
  // Erasing twice
  // ---------------------------------------------------------------------------

  lemma BlankIsNoStart()
    ensures !IsStart(BLANK)
  {
    assert Strip(BLANK) == BLANK;
    assert EndAt(BLANK, 2);
  }

  /** Erasing comments a second time changes nothing and reports the same. */
  lemma ErasingTwice(lines: seq<string>)
    ensures Outcome(Outcome(lines).0) == Outcome(lines)
  {
    var n, once := |lines|, Outcome(lines).0;
    var m := if Inside(lines, n) then Opening(lines, n) else n;
    BlankIsNoStart();
    QuietUpTo(once, 0, m);
    if m < n {
      OpenUpTo(once, m, n);
      assert Blanked(once, m) == once;
    } else {
      assert Blanked(once, n) == once;
    }
  }

  // ---------------------------------------------------------------------------
  // Which lines begin and end comments
  // ---------------------------------------------------------------------------

  lemma {:induction false} TrimEndIs(s: string) returns (e: nat)
    ensures e <= |s| && TrimEnd(s) == s[..e] && AllSpaces(s, e, |s|) && (e > 0 ==> !IsSpace(s[e - 1]))
  {
    if s != "" && IsSpace(s[|s| - 1]) {
      var n := |s| - 1;
      e := TrimEndIs(s[..n]);
      assert s[..n][..e] == s[..e];
      forall k | e <= k < |s| ensures IsSpace(s[k]) {
        if k < n { assert s[..n][k] == s[k]; }
      }
    } else {
      e := |s|;
    }
  }

  lemma {:induction false} FindEndIff(s: string, from: nat)
    ensures FindEnd(s, from) < 0 <==> forall k :: k >= from ==> !EndAt(s, k)
    decreases |s| - from
  {
    if from < |s| { FindEndIff(s, from + 1); }
  }

  /** After any white space the line goes on with a start marker at a, and no end marker follows. */
  ghost predicate OpensCommentAt(line: string, a: nat) {
    && a + 2 <= |line| && AllSpaces(line, 0, a) && line[a] == '/' && line[a + 1] == '*'
    && forall k :: k >= a + 2 ==> !EndAt(line, k)
  }

  /** The line ends with an end marker at e, but for white space. */
  ghost predicate EndsCommentAt(line: string, e: nat) { EndAt(line, e) && AllSpaces(line, e + 2, |line|) }

  /** The stripped line is what stands between white space at both ends. */
  lemma StripIs(line: string) returns (a: nat, e: nat)
    ensures a <= e <= |line| && Strip(line) == line[a..e] && AllSpaces(line, 0, a) && AllSpaces(line, e, |line|)
    ensures a < e ==> !IsSpace(line[a]) && !IsSpace(line[e - 1])
  {
    a := SkipSpacesIs(line);
    var d := TrimEndIs(line[a..]);
    e := a + d;
    assert line[a..][..d] == line[a..e];
    forall k | e <= k < |line| ensures IsSpace(line[k]) { assert line[a..][k - a] == line[k]; }
    if a < e { assert line[a..][d - 1] == line[e - 1]; }
  }

  lemma EndAtWithin(line: string, a: nat, e: nat, k: nat)
    requires a <= e <= |line| && AllSpaces(line, e, |line|) && a <= k
    ensures EndAt(line, k) <==> EndAt(line[a..e], k - a)
  {
  }

  lemma StartIff(line: string)
    ensures IsStart(line) <==> exists a: nat :: OpensCommentAt(line, a)
  {
    var a, e := StripIs(line);
    var s := line[a..e];
    FindEndIff(s, 2);
    forall k: nat | k >= a + 2 ensures EndAt(line, k) <==> EndAt(s, k - a) { EndAtWithin(line, a, e, k); }
    if IsStart(line) {
      assert forall k :: k >= a + 2 ==> (EndAt(line, k) <==> EndAt(s, k - a));
      assert OpensCommentAt(line, a);
    }
    if b: nat :| OpensCommentAt(line, b) {
      assert b == a && e >= a + 2;
      assert forall k :: k >= 2 ==> (EndAt(s, k) <==> EndAt(line, a + k));
    }
  }

  lemma EndIff(line: string)
    ensures IsEnd(line) <==> exists e: nat :: EndsCommentAt(line, e)
  {
    var a, e := StripIs(line);
    if IsEnd(line) {
      EndAtWithin(line, a, e, e - 2);
      assert EndsCommentAt(line, e - 2);
    }
    if d: nat :| EndsCommentAt(line, d) {
      assert e == d + 2 && a <= d;
      EndAtWithin(line, a, e, d);
    }
  }

  /** A comment line: one at or before it begins a comment, and none since then ends one. */
  ghost predicate BegunAt(lines: seq<string>, b: nat, k: nat) {
    b <= k < |lines| && IsStart(lines[b]) && forall j :: b <= j < k ==> !IsEnd(lines[j])
  }

  lemma {:induction false} InCommentIff(lines: seq<string>, k: nat)
    requires k < |lines|
    ensures InComment(lines, k) <==> exists b: nat :: BegunAt(lines, b, k)
    decreases k
  {
    if IsStart(lines[k]) {
      assert BegunAt(lines, k, k);
    } else if k > 0 {
      var before: nat := k - 1;
      InCommentIff(lines, before);
      if b: nat :| BegunAt(lines, b, before) && !IsEnd(lines[before]) { assert BegunAt(lines, b, k); }
      if b: nat :| BegunAt(lines, b, k) { assert BegunAt(lines, b, before); }
    }
  }

  /** Just the comment lines are replaced, by an empty comment; where a comment never ends,
      just those before it, and the number of its first line is given. */
  lemma ErasedAre(lines: seq<string>)
    ensures var (r, error) := Outcome(lines);
            && |r| == |lines| && (error.Some? ==> 0 < error.value <= |lines|)
            && (error.Some? ==> IsStart(lines[error.value - 1]))
            && (error.Some? ==> forall j :: error.value <= j < |lines| ==> !IsEnd(lines[j]))
            && forall k :: 0 <= k < |lines| ==>
                 r[k] == if (error.Some? ==> k + 1 < error.value) && (exists b: nat :: BegunAt(lines, b, k)) then "/**/"
                         else lines[k]
  {
    forall k | 0 <= k < |lines| ensures InComment(lines, k) <==> exists b: nat :: BegunAt(lines, b, k) {
      InCommentIff(lines, k);
    }
  }
}
