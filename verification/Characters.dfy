/** The character classes of the lint tool's regular expressions. */
module Characters {

  predicate IsSpace(c: char) {
    c == ' ' || c == '\t' || c == '\n' || c == '\r' || c == '\U{0b}' || c == '\U{0c}'
  }

  predicate IsWord(c: char) {
    'a' <= c <= 'z' || 'A' <= c <= 'Z' || '0' <= c <= '9' || c == '_'
  }

  function SkipSpaces(s: string): string {
    if s != "" && IsSpace(s[0]) then SkipSpaces(s[1..]) else s
  }

  /** The longest run of word characters at the start of s. */
  function LeadingWord(s: string): string {
    if s != "" && IsWord(s[0]) then [s[0]] + LeadingWord(s[1..]) else ""
  }

  ghost predicate AllSpaces(s: string, i: int, j: int) { forall k :: i <= k < j && 0 <= k < |s| ==> IsSpace(s[k]) }

  /** What is skipped is all white space, up to the first other character. */
  lemma {:induction false} SkipSpacesIs(s: string) returns (a: nat)
    ensures a <= |s| && SkipSpaces(s) == s[a..] && AllSpaces(s, 0, a) && (a < |s| ==> !IsSpace(s[a]))
  {
    if s != "" && IsSpace(s[0]) {
      var b := SkipSpacesIs(s[1..]);
      a := b + 1;
      assert forall k :: 0 < k < |s| ==> s[k] == s[1..][k - 1];
    } else {
      a := 0;
    }
  }

  /** The word ends where a character that is none of a word follows, or the text ends. */
  ghost predicate StartsWithWord(s: string, word: string) {
    && |word| <= |s| && s[..|word|] == word && (forall k :: 0 <= k < |word| ==> IsWord(word[k]))
    && (|word| < |s| ==> !IsWord(s[|word|]))
  }

  lemma {:induction false} LeadingWordIff(s: string, word: string)
    ensures LeadingWord(s) == word <==> StartsWithWord(s, word)
    decreases |s|
  {
    if s != "" && IsWord(s[0]) {
      if word != "" {
        LeadingWordIff(s[1..], word[1..]);
        assert word == [word[0]] + word[1..];
        if StartsWithWord(s, word) {
          assert s[1..][..|word| - 1] == s[..|word|][1..];
          assert StartsWithWord(s[1..], word[1..]);
        }
        if LeadingWord(s) == word {
          assert s[..|word|] == [s[0]] + s[1..][..|word| - 1];
        }
      }
    }
  }
}
