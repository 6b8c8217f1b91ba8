/**
 * `String.prototype.split('\n')` and `join('\n')`, as the stream decoder
 * uses them to cut the newly received text into lines.
 */
module Lines {

  /** The index of the first line feed in `s` at or after `i`, or `|s|` when there is none. */
  function LineEnd(s: string, i: nat): (j: nat)
    requires i <= |s|
    ensures i <= j <= |s|
    ensures j < |s| ==> s[j] == '\n'
    ensures forall k :: i <= k < j ==> s[k] != '\n'
    decreases |s| - i
  {
    if i == |s| || s[i] == '\n' then i else LineEnd(s, i + 1)
  }

  /** `s.split('\n')`: the text up to each line feed, then the rest; `""` splits into `[""]`. */
  function SplitLines(s: string): (lines: seq<string>)
    ensures |lines| >= 1
    decreases |s|
  {
    var j := LineEnd(s, 0);
    if j == |s| then [s] else [s[..j]] + SplitLines(s[j + 1..])
  }

  /** The first line feed is where the characters say it is. */
  lemma LineEndAt(s: string, j: nat)
    requires j <= |s| && (j < |s| ==> s[j] == '\n')
    requires forall k :: 0 <= k < j ==> s[k] != '\n'
    ensures LineEnd(s, 0) == j
  {
  }

  /** `lines.join('\n')`. */
  function JoinLines(lines: seq<string>): string
    requires |lines| >= 1
  {
    if |lines| == 1 then lines[0] else lines[0] + "\n" + JoinLines(lines[1..])
  }

  /** Splitting loses nothing: joining the lines with line feeds gives the text back. */
  lemma {:induction false} JoinSplit(s: string)
    ensures JoinLines(SplitLines(s)) == s
    decreases |s|
  {
    var j := LineEnd(s, 0);
    if j < |s| {
      var rest := s[j + 1..];
      JoinSplit(rest);
      var tail := SplitLines(rest);
      JoinCons(s[..j], tail);
      CutAtLineFeed(s, j);
    }
  }

  /** A text is its part before a line feed, the line feed, and its part after. */
  lemma CutAtLineFeed(s: string, j: nat)
    requires j < |s| && s[j] == '\n'
    ensures s == s[..j] + "\n" + s[j + 1..]
  {
  }

  /** Joining a first line and further lines puts one line feed between them. */
  lemma JoinCons(line: string, lines: seq<string>)
    requires |lines| >= 1
    ensures JoinLines([line] + lines) == line + "\n" + JoinLines(lines)
  {
    assert ([line] + lines)[1..] == lines;
  }

  /** No line of the split holds a line feed. */
  lemma {:induction false} SplitLinesHaveNoLineFeed(s: string)
    ensures forall k :: 0 <= k < |SplitLines(s)| ==> '\n' !in SplitLines(s)[k]
    decreases |s|
  {
    var j := LineEnd(s, 0);
    assert '\n' !in s[..j];
    if j < |s| {
      var rest := s[j + 1..];
      SplitLinesHaveNoLineFeed(rest);
      assert forall k :: 1 <= k < |SplitLines(s)| ==> SplitLines(s)[k] == SplitLines(rest)[k - 1];
    }
  }

  /** Text without a line feed is a single line. */
  lemma SplitNoLineFeed(s: string)
    requires '\n' !in s
    ensures SplitLines(s) == [s]
  {
    LineEndAt(s, |s|);
  }

  /** Text cut right after a line feed splits into the lines of each side. */
  lemma {:induction false} SplitAtLineFeed(x: string, y: string)
    ensures SplitLines(x + "\n" + y) == SplitLines(x) + SplitLines(y)
    decreases |x|
  {
    var j := LineEnd(x, 0);
    if j < |x| {
      SplitAtLineFeed(x[j + 1..], y);
      SplitAtLineFeedStep(x, y, j);
    } else {
      JoinedLineEnd(x, y);
      JoinedSlices(x, y, j);
    }
  }

  /** The step of `SplitAtLineFeed`: the first line of `x` comes first, the rest splits as before. */
  lemma SplitAtLineFeedStep(x: string, y: string, j: nat)
    requires j == LineEnd(x, 0) && j < |x|
    requires SplitLines(x[j + 1..] + "\n" + y) == SplitLines(x[j + 1..]) + SplitLines(y)
    ensures SplitLines(x + "\n" + y) == SplitLines(x) + SplitLines(y)
  {
    var s := x + "\n" + y;
    JoinedLineEnd(x, y);
    JoinedSlices(x, y, j);
    SplitFirst(s);
    SplitFirst(x);
    ConsAppend(x[..j], SplitLines(x[j + 1..]), SplitLines(y));
  }

  /** One step of `SplitLines`: the text before the first line feed, then the split of the rest. */
  lemma SplitFirst(s: string)
    requires LineEnd(s, 0) < |s|
    ensures SplitLines(s) == [s[..LineEnd(s, 0)]] + SplitLines(s[LineEnd(s, 0) + 1..])
  {
  }

  lemma ConsAppend<T>(a: T, b: seq<T>, c: seq<T>)
    ensures [a] + (b + c) == [a] + b + c
  {
  }

  /** Appending a line feed and more text does not move the first line feed of `x`, if it has one. */
  lemma JoinedLineEnd(x: string, y: string)
    ensures LineEnd(x + "\n" + y, 0) == LineEnd(x, 0)
  {
    var s := x + "\n" + y;
    assert forall k :: 0 <= k < |x| ==> s[k] == x[k];
    LineEndAt(s, LineEnd(x, 0));
  }

  /** The parts of `x + "\n" + y` around a cut at `j` inside `x` or at its end. */
  lemma JoinedSlices(x: string, y: string, j: nat)
    requires j <= |x|
    ensures (x + "\n" + y)[..j] == x[..j]
    ensures j == |x| ==> x[..j] == x && (x + "\n" + y)[j + 1..] == y
    ensures j < |x| ==> (x + "\n" + y)[j + 1..] == x[j + 1..] + "\n" + y
  {
  }

  /** A line and its line feed split into the line and an empty remainder. */
  lemma SplitOneLine(line: string)
    requires '\n' !in line
    ensures SplitLines(line + "\n") == [line, ""]
  {
    assert line + "\n" == line + "\n" + "";
    assert SplitLines("") == [""];
    SplitAtLineFeed(line, "");
    SplitNoLineFeed(line);
  }
}
