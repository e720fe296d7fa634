/** `data_from_mime`: the key/value pairs of a pseudo-MIME text, one `key: value` per line.
    The model starts from the decoded file content. */
module Mime {
  import opened Wrappers
  import opened Lines

  /** The separator between a key and its value. */
  const Sep: string := ": "

  /** The separator starts at index `i` of `s`. */
  predicate SepAt(s: string, i: int) {
    0 <= i && i + 1 < |s| && s[i] == Sep[0] && s[i + 1] == Sep[1]
  }

  /** Python's `": " in s`: holds exactly when the search for the first separator finds one. */
  predicate ContainsSep(s: string): (b: bool)
    ensures b <==> FindSep(s, 0).Some?
  {
    exists i | 0 <= i < |s| :: SepAt(s, i)
  }

  /** The first index at or after `from` where the separator starts. */
  function FindSep(s: string, from: nat): (r: Option<nat>)
    requires from <= |s|
    ensures r.Some? ==> from <= r.value && SepAt(s, r.value)
    ensures forall j :: from <= j && (r.None? || j < r.value) ==> !SepAt(s, j)
    decreases |s| - from
  {
    if from + 1 >= |s| then None
    else if SepAt(s, from) then Some(from)
    else FindSep(s, from + 1)
  }

  /** Python's `s.split(": ", 1)`: `[s]` when the separator does not occur, otherwise the
      text before its first occurrence and everything after it. */
  function SplitOnce(s: string): (parts: seq<string>)
    ensures |parts| == if ContainsSep(s) then 2 else 1
    ensures !ContainsSep(s) ==> parts == [s]
    ensures ContainsSep(s) ==> s == parts[0] + Sep + parts[1] && !ContainsSep(parts[0])
  {
    match FindSep(s, 0)
    case None => [s]
    case Some(i) =>
      var key, value := s[..i], s[i + 2..];
      assert s == key + Sep + value;
      assert forall j :: 0 <= j < |key| ==> (SepAt(key, j) ==> SepAt(s, j));
      [key, value]
  }

  /** Declarative reading of a line: `line` is `key + ": " + value` and the separator
      written there is the first one of the line. */
  predicate Defines(line: string, key: string, value: string) {
    line == key + Sep + value && !ContainsSep(key)
  }

  /** `line` contributes an entry for `key`, whatever its value. */
  predicate DefinesKey(line: string, key: string) {
    ContainsSep(line) && SplitOnce(line)[0] == key
  }

  /** A line is split in exactly one way into a key without the separator, the separator
      and a value, and SplitOnce finds that way; the value may contain further separators. */
  lemma {:induction false} SplitOnceUnique(line: string, key: string, value: string)
    requires Defines(line, key, value)
    ensures ContainsSep(line) && SplitOnce(line) == [key, value]
  {
    assert SepAt(line, |key|);
    forall j | 0 <= j < |key| ensures !SepAt(line, j) {
      if j + 1 < |key| {
        assert !SepAt(key, j);
      } else {
        assert line[j + 1] == ':';
      }
    }
    var i := FindSep(line, 0).value;
    assert i == |key|;
    assert line[..i] == key;
    assert line[i + 2..] == value;
  }

  /** The generator `(x.split(": ", 1) for x in lines if ": " in x)`: one pair per line
      holding the separator, in line order. */
  function Entries(lines: seq<string>): (ps: seq<(string, string)>)
    ensures |ps| <= |lines|
  {
    if lines == [] then []
    else
      var last := lines[|lines| - 1];
      var init := Entries(lines[..|lines| - 1]);
      if ContainsSep(last) then init + [(SplitOnce(last)[0], SplitOnce(last)[1])] else init
  }

  /** `dict(ps)`: the pairs are stored in order, so a later pair overwrites an earlier one
      with the same key. */
  function FromPairs(ps: seq<(string, string)>): (m: map<string, string>)
    ensures forall i :: 0 <= i < |ps| ==> ps[i].0 in m
  {
    if ps == [] then map[]
    else FromPairs(ps[..|ps| - 1])[ps[|ps| - 1].0 := ps[|ps| - 1].1]
  }

  /** The mapping built from already split lines. */
  function ParseLines(lines: seq<string>): (m: map<string, string>)
  {
    FromPairs(Entries(lines))
  }

  /** `data_from_mime` on the decoded `content` of the file. */
  function DataFromMime(content: string): (m: map<string, string>)
    ensures content == [] ==> m == map[]
  {
    ParseLines(SplitLines(content))
  }

  // ---------------------------------------------------------------------------
  // The generator and dict()

  lemma {:induction false} EntriesAppend(a: seq<string>, b: seq<string>)
    ensures Entries(a + b) == Entries(a) + Entries(b)
    decreases |b|
  {
    if b == [] {
      assert a + b == a;
    } else {
      var b' := b[..|b| - 1];
      assert (a + b)[..|a + b| - 1] == a + b';
      EntriesAppend(a, b');
    }
  }

  /** Every key of `dict(ps)` is the key of some pair, and every pair's key is a key. */
  lemma {:induction false} FromPairsKeys(ps: seq<(string, string)>, k: string)
    ensures k in FromPairs(ps) <==> exists i :: 0 <= i < |ps| && ps[i].0 == k
  {
    if ps != [] {
      var init := ps[..|ps| - 1];
      FromPairsKeys(init, k);
      if k in FromPairs(init) {
        var i :| 0 <= i < |init| && init[i].0 == k;
        assert ps[i].0 == k;
      }
      if exists i :: 0 <= i < |ps| && ps[i].0 == k {
        var i :| 0 <= i < |ps| && ps[i].0 == k;
        if i < |init| { assert init[i].0 == k; }
      }
    }
  }

  /** Last write wins: the value stored under a key is the value of the last pair with it. */
  lemma {:induction false} FromPairsLastWins(ps: seq<(string, string)>, i: nat)
    requires i < |ps|
    requires forall j :: i < j < |ps| ==> ps[j].0 != ps[i].0
    ensures ps[i].0 in FromPairs(ps) && FromPairs(ps)[ps[i].0] == ps[i].1
    decreases |ps|
  {
    if i < |ps| - 1 {
      var init := ps[..|ps| - 1];
      assert init[i] == ps[i];
      FromPairsLastWins(init, i);
    }
  }

  /** Each stored value comes from the last pair holding its key. */
  lemma {:induction false} FromPairsSource(ps: seq<(string, string)>, k: string)
    requires k in FromPairs(ps)
    ensures exists i :: 0 <= i < |ps| && ps[i] == (k, FromPairs(ps)[k])
                     && forall j :: i < j < |ps| ==> ps[j].0 != k
    decreases |ps|
  {
    var last := ps[|ps| - 1];
    if last.0 != k {
      var init := ps[..|ps| - 1];
      FromPairsSource(init, k);
      var i :| 0 <= i < |init| && init[i] == (k, FromPairs(init)[k])
               && forall j :: i < j < |init| ==> init[j].0 != k;
      assert ps[i] == init[i];
      assert forall j :: i < j < |ps| ==> ps[j].0 != k by {
        forall j | i < j < |ps| ensures ps[j].0 != k {
          if j < |init| { assert ps[j] == init[j]; }
        }
      }
    } else {
      assert ps[|ps| - 1] == (k, FromPairs(ps)[k]);
    }
  }

  /** The generator on a single line. */
  lemma EntriesOfOne(line: string)
    ensures Entries([line]) == if ContainsSep(line) then [(SplitOnce(line)[0], SplitOnce(line)[1])] else []
  {
    assert [line][..0] == [];
  }

  /** Each pair of the generator is the split of one of the lines. */
  lemma {:induction false} EntriesFromLines(lines: seq<string>, n: nat)
    requires n < |Entries(lines)|
    ensures exists i :: 0 <= i < |lines| && Defines(lines[i], Entries(lines)[n].0, Entries(lines)[n].1)
    decreases |lines|
  {
    var last, init := lines[|lines| - 1], lines[..|lines| - 1];
    if n < |Entries(init)| {
      EntriesFromLines(init, n);
      var i :| 0 <= i < |init| && Defines(init[i], Entries(init)[n].0, Entries(init)[n].1);
      assert lines[i] == init[i];
    } else {
      assert Defines(lines[|lines| - 1], Entries(lines)[n].0, Entries(lines)[n].1);
    }
  }

  // ---------------------------------------------------------------------------
  // Properties of the parser

  /** The next line turns into an entry exactly when it holds the separator. */
  lemma ParseLinesSnoc(lines: seq<string>, line: string)
    ensures !ContainsSep(line) ==> ParseLines(lines + [line]) == ParseLines(lines)
    ensures ContainsSep(line) ==>
      ParseLines(lines + [line]) == ParseLines(lines)[SplitOnce(line)[0] := SplitOnce(line)[1]]
  {
    assert (lines + [line])[..|lines|] == lines;
    if ContainsSep(line) {
      var ps := Entries(lines) + [(SplitOnce(line)[0], SplitOnce(line)[1])];
      assert ps[..|ps| - 1] == Entries(lines);
    }
  }

  /** A line without the separator contributes nothing, wherever it stands. */
  lemma {:induction false} IgnoredLine(before: seq<string>, line: string, after: seq<string>)
    requires !ContainsSep(line)
    ensures ParseLines(before + [line] + after) == ParseLines(before + after)
  {
    EntriesAppend(before + [line], after);
    EntriesAppend(before, [line]);
    EntriesAppend(before, after);
    assert [line][..0] == [];
  }

  /** The mapping is empty exactly when no line holds the separator. */
  lemma {:induction false} EmptyIffNoSeparator(lines: seq<string>)
    ensures ParseLines(lines) == map[] <==> forall i :: 0 <= i < |lines| ==> !ContainsSep(lines[i])
    decreases |lines|
  {
    if lines != [] {
      var init, last := lines[..|lines| - 1], lines[|lines| - 1];
      assert lines == init + [last];
      ParseLinesSnoc(init, last);
      EmptyIffNoSeparator(init);
      if ContainsSep(last) {
        assert SplitOnce(last)[0] in ParseLines(lines);
      } else {
        assert forall i :: 0 <= i < |init| ==> init[i] == lines[i];
      }
    }
  }

  /** Empty content, and content without any `key: value` line, give the empty mapping. */
  lemma NoDataWithoutSeparator(content: string)
    requires forall i :: 0 <= i < |SplitLines(content)| ==> !ContainsSep(SplitLines(content)[i])
    ensures DataFromMime(content) == map[]
  {
    EmptyIffNoSeparator(SplitLines(content));
  }

  /** A key is present exactly when some line yields an entry for it. */
  lemma {:induction false} KeyPresent(lines: seq<string>, k: string)
    ensures k in ParseLines(lines) <==> exists i :: 0 <= i < |lines| && DefinesKey(lines[i], k)
    decreases |lines|
  {
    if lines != [] {
      var init, last := lines[..|lines| - 1], lines[|lines| - 1];
      assert lines == init + [last];
      ParseLinesSnoc(init, last);
      KeyPresent(init, k);
      if exists i :: 0 <= i < |init| && DefinesKey(init[i], k) {
        var i :| 0 <= i < |init| && DefinesKey(init[i], k);
        assert lines[i] == init[i];
      }
      if exists i :: 0 <= i < |lines| && DefinesKey(lines[i], k) {
        var i :| 0 <= i < |lines| && DefinesKey(lines[i], k);
        if i < |init| { assert init[i] == lines[i]; }
      }
    }
  }

  /** Last write wins: when line `i` is `k: v` and no later line has key `k`, `k` maps to `v`. */
  lemma {:induction false} LastWins(lines: seq<string>, i: nat, k: string, v: string)
    requires i < |lines| && Defines(lines[i], k, v)
    requires forall j :: i < j < |lines| ==> !DefinesKey(lines[j], k)
    ensures k in ParseLines(lines) && ParseLines(lines)[k] == v
    decreases |lines|
  {
    var init, last := lines[..|lines| - 1], lines[|lines| - 1];
    assert lines == init + [last];
    ParseLinesSnoc(init, last);
    if i == |lines| - 1 {
      SplitOnceUnique(last, k, v);
    } else {
      assert init[i] == lines[i];
      assert forall j :: i < j < |init| ==> init[j] == lines[j];
      LastWins(init, i, k, v);
    }
  }

  /** Every entry rebuilds one of the lines: `key + ": " + value` is a line, and the key holds
      no separator (the value may). */
  lemma EntryRebuildsLine(lines: seq<string>, k: string)
    requires k in ParseLines(lines)
    ensures !ContainsSep(k)
    ensures exists i :: 0 <= i < |lines| && lines[i] == k + Sep + ParseLines(lines)[k]
  {
    var ps := Entries(lines);
    FromPairsSource(ps, k);
    var n :| 0 <= n < |ps| && ps[n] == (k, FromPairs(ps)[k]) && forall j :: n < j < |ps| ==> ps[j].0 != k;
    EntriesFromLines(lines, n);
    var i :| 0 <= i < |lines| && Defines(lines[i], ps[n].0, ps[n].1);
    assert lines[i] == k + Sep + ParseLines(lines)[k];
  }

  /** The mapping of a file: its keys hold neither the separator nor a line boundary, and
      each entry spells out, with ": " between key and value, one line of the content. */
  lemma DataFromMimeEntries(content: string, k: string)
    requires k in DataFromMime(content)
    ensures !ContainsSep(k) && NoBreak(k) && NoBreak(DataFromMime(content)[k])
    ensures exists i :: 0 <= i < |SplitLines(content)|
                     && SplitLines(content)[i] == k + Sep + DataFromMime(content)[k]
  {
    var lines := SplitLines(content);
    LinesHaveNoBreak(content);
    EntryRebuildsLine(lines, k);
    var i :| 0 <= i < |lines| && lines[i] == k + Sep + DataFromMime(content)[k];
    var v := DataFromMime(content)[k];
    assert forall j :: 0 <= j < |k| ==> k[j] == lines[i][j];
    assert forall j :: 0 <= j < |v| ==> v[j] == lines[i][|k| + 2 + j];
  }

  // ---------------------------------------------------------------------------
  // Round trip through a formatted file

  /** A well-formed pseudo-MIME text: one `key: value` line per pair, each ended by "\n". */
  function Render(ps: seq<(string, string)>): (s: string)
  {
    JoinLines(RenderLines(ps))
  }

  function RenderLines(ps: seq<(string, string)>): (lines: seq<string>)
    ensures |lines| == |ps|
  {
    if ps == [] then [] else [ps[0].0 + Sep + ps[0].1] + RenderLines(ps[1..])
  }

  /** Pairs that can be written as lines: keys without the separator, keys and values
      without line boundaries. */
  predicate Writable(ps: seq<(string, string)>) {
    forall i :: 0 <= i < |ps| ==> !ContainsSep(ps[i].0) && NoBreak(ps[i].0) && NoBreak(ps[i].1)
  }

  /** A single written pair reads back as that pair. */
  lemma EntriesOfRenderedLine(k: string, v: string)
    requires !ContainsSep(k)
    ensures Entries([k + Sep + v]) == [(k, v)]
  {
    SplitOnceUnique(k + Sep + v, k, v);
    EntriesOfOne(k + Sep + v);
  }

  lemma {:induction false} EntriesOfRendered(ps: seq<(string, string)>)
    requires Writable(ps)
    ensures Entries(RenderLines(ps)) == ps
    decreases |ps|
  {
    if ps != [] {
      var tail := ps[1..];
      assert Writable(tail) by {
        forall i | 0 <= i < |tail| ensures !ContainsSep(tail[i].0) && NoBreak(tail[i].0) && NoBreak(tail[i].1) {
          assert tail[i] == ps[i + 1];
        }
      }
      EntriesOfRendered(tail);
      EntriesOfRenderedLine(ps[0].0, ps[0].1);
      EntriesAppend([ps[0].0 + Sep + ps[0].1], RenderLines(tail));
      assert ps == [ps[0]] + tail;
    }
  }

  /** No written line holds a boundary. */
  lemma {:induction false} RenderedLinesNoBreak(ps: seq<(string, string)>)
    requires Writable(ps)
    ensures forall i :: 0 <= i < |RenderLines(ps)| ==> NoBreak(RenderLines(ps)[i])
    decreases |ps|
  {
    if ps != [] {
      var tail := ps[1..];
      assert Writable(tail) by {
        forall i | 0 <= i < |tail| ensures !ContainsSep(tail[i].0) && NoBreak(tail[i].0) && NoBreak(tail[i].1) {
          assert tail[i] == ps[i + 1];
        }
      }
      RenderedLinesNoBreak(tail);
      assert NoBreak(Sep);
      NoBreakConcat(ps[0].0, Sep);
      NoBreakConcat(ps[0].0 + Sep, ps[0].1);
    }
  }

  /** Parsing a well-formed text recovers its pairs, the last occurrence of a key winning. */
  lemma RenderRoundTrip(ps: seq<(string, string)>)
    requires Writable(ps)
    ensures DataFromMime(Render(ps)) == FromPairs(ps)
  {
    RenderedLinesNoBreak(ps);
    SplitJoinLines(RenderLines(ps));
    EntriesOfRendered(ps);
  }

  lemma ExampleLines(content: string)
    requires content == "hello\nkey: a: b\n"
    ensures SplitLines(content) == ["hello", "key: a: b"]
  {
    var hello, entry := "hello", "key: a: b";
    assert NoBreak(hello) && NoBreak(entry);
    assert content == hello + "\n" + (entry + "\n" + []);
    SplitAtEnding(entry, "\n", []);
    SplitAtEnding(hello, "\n", entry + "\n" + []);
  }

  lemma ExampleParse(lines: seq<string>)
    requires lines == ["hello", "key: a: b"]
    ensures ParseLines(lines) == map["key" := "a: b"]
  {
    var hello, entry := "hello", "key: a: b";
    assert !ContainsSep(hello) by {
      forall i | 0 <= i < |hello| ensures !SepAt(hello, i) { }
    }
    assert !ContainsSep("key");
    SplitOnceUnique(entry, "key", "a: b");
    ParseLinesSnoc([], hello);
    assert lines == [hello] + [entry];
    ParseLinesSnoc([hello], entry);
  }

  /** A line without the separator is skipped and a value keeps later separators:
      "hello\nkey: a: b\n" gives {"key": "a: b"}. */
  lemma Example(content: string)
    requires content == "hello\nkey: a: b\n"
    ensures DataFromMime(content) == map["key" := "a: b"]
  {
    ExampleLines(content);
    ExampleParse(SplitLines(content));
  }
}
