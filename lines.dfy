/** Python's `str.splitlines()` (without `keepends`), over text as a sequence of characters. */
module Lines {

  /** The characters `str.splitlines` treats as line boundaries. "\r\n" is one boundary,
      handled by BreakLength. */
  predicate IsLineBreak(c: char) {
    || c == '\n'          // line feed
    || c == '\r'          // carriage return
    || c == '\U{0B}'      // line tabulation
    || c == '\U{0C}'      // form feed
    || c == '\U{1C}'      // file separator
    || c == '\U{1D}'      // group separator
    || c == '\U{1E}'      // record separator
    || c == '\U{85}'      // next line
    || c == '\U{2028}'    // line separator
    || c == '\U{2029}'    // paragraph separator
  }

  /** A line as `splitlines` returns it: no boundary character inside. */
  predicate NoBreak(s: string) {
    forall j :: 0 <= j < |s| ==> !IsLineBreak(s[j])
  }

  /** The index of the first line boundary at or after `i`, or `|s|` when there is none. */
  function BreakIndex(s: string, i: nat): (k: nat)
    requires i <= |s|
    ensures i <= k <= |s|
    ensures k < |s| ==> IsLineBreak(s[k])
    ensures forall j :: i <= j < k ==> !IsLineBreak(s[j])
    decreases |s| - i
  {
    if i == |s| || IsLineBreak(s[i]) then i else BreakIndex(s, i + 1)
  }

  /** How many characters the boundary at `s[k]` takes: two for "\r\n", one otherwise. */
  function BreakLength(s: string, k: nat): (n: nat)
    requires k < |s|
    ensures 1 <= n <= 2 && k + n <= |s|
  {
    if s[k] == '\r' && k + 1 < |s| && s[k + 1] == '\n' then 2 else 1
  }

  /** `s.splitlines()`: the text between boundaries; a boundary at the very end opens no
      further (empty) line, and the empty text has no lines at all. */
  function SplitLines(s: string): (lines: seq<string>)
    ensures |lines| == 0 <==> s == []
    decreases |s|
  {
    if s == [] then []
    else
      var k := BreakIndex(s, 0);
      if k == |s| then [s]
      else [s[..k]] + SplitLines(s[k + BreakLength(s, k)..])
  }

  /** No line holds a boundary character. */
  lemma {:induction false} LinesHaveNoBreak(s: string)
    ensures forall i :: 0 <= i < |SplitLines(s)| ==> NoBreak(SplitLines(s)[i])
    decreases |s|
  {
    if s != [] {
      var k := BreakIndex(s, 0);
      if k < |s| {
        var line, rest := s[..k], s[k + BreakLength(s, k)..];
        assert NoBreak(line) by {
          forall j | 0 <= j < k ensures !IsLineBreak(line[j]) { assert line[j] == s[j]; }
        }
        LinesHaveNoBreak(rest);
        assert SplitLines(s) == [line] + SplitLines(rest);
      }
    }
  }

  /** The text whose lines are `lines`, each one ended by "\n". */
  function JoinLines(lines: seq<string>): (s: string)
  {
    if lines == [] then [] else lines[0] + "\n" + JoinLines(lines[1..])
  }

  /** The break search from `i` stops at `k` when `s[k]` is the first boundary from `i` on. */
  lemma {:induction false} BreakIndexAt(s: string, i: nat, k: nat)
    requires i <= k < |s| && IsLineBreak(s[k])
    requires forall j :: i <= j < k ==> !IsLineBreak(s[j])
    ensures BreakIndex(s, i) == k
    decreases k - i
  {
    if i < k {
      BreakIndexAt(s, i + 1, k);
    }
  }

  /** The first line ends at the first boundary, and the rest is split after that boundary. */
  lemma FirstLine(s: string, k: nat)
    requires k < |s| && IsLineBreak(s[k]) && NoBreak(s[..k])
    ensures SplitLines(s) == [s[..k]] + SplitLines(s[k + BreakLength(s, k)..])
  {
    assert forall j :: 0 <= j < k ==> s[j] == s[..k][j];
    BreakIndexAt(s, 0, k);
  }

  /** A line is ended by "\r\n" or by a single boundary character, where a "\r" directly
      followed by "\n" is not a boundary on its own. */
  predicate Ending(b: string, rest: string) {
    || b == "\r\n"
    || (|b| == 1 && IsLineBreak(b[0]) && (b[0] == '\r' ==> rest == [] || rest[0] != '\n'))
  }

  /** Splitting `a`, an ending and more text gives the line `a` followed by the lines of the
      rest: "\r\n" counts as one boundary. */
  lemma SplitAtEnding(a: string, b: string, rest: string)
    requires NoBreak(a) && Ending(b, rest)
    ensures SplitLines(a + b + rest) == [a] + SplitLines(rest)
  {
    var s := a + b + rest;
    assert s[..|a|] == a;
    assert s[|a|] == b[0];
    if b == "\r\n" {
      assert s[|a| + 1] == '\n';
      assert BreakLength(s, |a|) == 2;
    } else {
      assert BreakLength(s, |a|) == 1 by {
        if b[0] == '\r' && rest != [] { assert s[|a| + 1] == rest[0]; }
      }
    }
    assert s[|a| + |b|..] == rest;
    FirstLine(s, |a|);
  }

  /** Joining two pieces without boundaries gives a piece without boundaries. */
  lemma NoBreakConcat(a: string, b: string)
    requires NoBreak(a) && NoBreak(b)
    ensures NoBreak(a + b)
  {
    forall j | 0 <= j < |a + b| ensures !IsLineBreak((a + b)[j]) {
      if j < |a| { assert (a + b)[j] == a[j]; } else { assert (a + b)[j] == b[j - |a|]; }
    }
  }

  /** Splitting text made of lines with no boundary in them, each ended by "\n", gives back
      exactly those lines: in particular the final "\n" does not add an empty line. */
  lemma {:induction false} SplitJoinLines(lines: seq<string>)
    requires forall i :: 0 <= i < |lines| ==> NoBreak(lines[i])
    ensures SplitLines(JoinLines(lines)) == lines
  {
    if lines != [] {
      var rest := JoinLines(lines[1..]);
      assert JoinLines(lines) == lines[0] + "\n" + rest;
      SplitAtEnding(lines[0], "\n", rest);
      SplitJoinLines(lines[1..]);
    }
  }

  /** Non-empty text without any boundary is a single line. */
  lemma SingleLine(s: string)
    requires s != [] && NoBreak(s)
    ensures SplitLines(s) == [s]
  {
    assert BreakIndex(s, 0) == |s|;
  }
}
