/**
 * The incremental decoder run on every download-progress event of a streamed
 * completion request. Each event hands over the whole response text received
 * so far; the decoder remembers the previous snapshot, takes the part beyond
 * its length, splits it on line feeds, and for every line starting with
 * `data: ` JSON-decodes the text after the fifth character and appends
 * `choices[0]?.delta?.content || ''` to the running response.
 *
 * The decoding of one payload is the parameter `parse`: `None` stands for
 * `JSON.parse` throwing, or for a payload without a `choices` array (reading
 * `choices[0]` then throws as well); both are caught and the line is skipped.
 *
 * Two behaviours of the source are kept as written: the payload keeps the
 * space after `data:` so the `[DONE]` test never matches (the `[DONE]` line
 * is dropped by the failing parse instead), and a line split across two
 * snapshots is not buffered, so it is lost.
 */
module StreamDecoder {
  import opened Wrappers
  import opened Lines

  const DataPrefix: string := "data: "
  const DoneSentinel: string := "[DONE]"

  /** What one decoded event carries: `delta.content`, absent when missing. */
  datatype Delta = Delta(content: Option<string>)

  /** The JSON decoding of one payload; `None` when it throws. */
  type Parser = string -> Option<Delta>

  /** `content || ''`. */
  function DeltaText(d: Delta): string {
    d.content.GetOr("")
  }

  /** `JSON.parse` rejects ` [DONE]`: this is the only property of it the [DONE] handling relies on. */
  predicate RejectsDone(parse: Parser) {
    parse(" " + DoneSentinel) == None
  }

  // ---------------------------------------------------------------------------
  // What the lines of one progress event contribute

  /** The text one line appends to the running response. */
  function LineText(parse: Parser, line: string): string {
    if DataPrefix <= line then
      var data := line[5..];
      if data == DoneSentinel then ""
      else match parse(data)
        case None => ""
        case Some(d) => DeltaText(d)
    else ""
  }

  /** The text a list of lines appends, in order. */
  function DecodeLines(parse: Parser, lines: seq<string>): string {
    if lines == [] then "" else LineText(parse, lines[0]) + DecodeLines(parse, lines[1..])
  }

  /** The text one stretch of new response text appends. */
  function DecodeText(parse: Parser, s: string): string {
    DecodeLines(parse, SplitLines(s))
  }

  /** Decoding one more line appends that line's text. */
  lemma DecodeLinesSnoc(parse: Parser, lines: seq<string>, line: string)
    ensures DecodeLines(parse, lines + [line]) == DecodeLines(parse, lines) + LineText(parse, line)
  {
    DecodeLinesAppend(parse, lines, [line]);
    assert [line][1..] == [];
  }

  /** The lines are processed in order: decoding a concatenation concatenates. */
  lemma {:induction false} DecodeLinesAppend(parse: Parser, a: seq<string>, b: seq<string>)
    ensures DecodeLines(parse, a + b) == DecodeLines(parse, a) + DecodeLines(parse, b)
  {
    if a == [] {
      assert a + b == b;
    } else {
      assert (a + b)[1..] == a[1..] + b;
      DecodeLinesAppend(parse, a[1..], b);
    }
  }

  /** `line.slice(5)` keeps the space after `data:`, so the `[DONE]` comparison never succeeds. */
  lemma DoneTestNeverMatches(line: string)
    requires DataPrefix <= line
    ensures line[5..] != DoneSentinel
  {
    assert line[5..][0] == line[5] == ' ';
  }

  /** The `data: [DONE]` line adds nothing, because the parse of ` [DONE]` throws. */
  lemma DoneLineAddsNothing(parse: Parser)
    requires RejectsDone(parse)
    ensures LineText(parse, DataPrefix + DoneSentinel) == ""
  {
    var line := DataPrefix + DoneSentinel;
    assert DataPrefix <= line;
    assert line[5..] == " " + DoneSentinel;
  }

  /** The three outcomes of one line, in the order the handler tests them. */
  lemma LineTextCases(parse: Parser, line: string)
    ensures !(DataPrefix <= line) ==> LineText(parse, line) == ""
    ensures DataPrefix <= line && line[5..] == DoneSentinel ==> LineText(parse, line) == ""
    ensures DataPrefix <= line && line[5..] != DoneSentinel ==>
      LineText(parse, line) == if parse(line[5..]).Some? then DeltaText(parse(line[5..]).value) else ""
  {
  }

  /** Lines without the `data: ` prefix, including empty ones, add nothing. */
  lemma NonDataLineAddsNothing(parse: Parser, line: string)
    requires !(DataPrefix <= line)
    ensures LineText(parse, line) == ""
  {
  }

  /**
   * A payload that fails to decode is skipped without disturbing the lines
   * around it: the result is that of the valid lines alone.
   */
  lemma MalformedLineSkipped(parse: Parser, before: seq<string>, bad: string, after: seq<string>)
    requires DataPrefix <= bad && parse(bad[5..]) == None
    ensures DecodeLines(parse, before + [bad] + after) == DecodeLines(parse, before + after)
  {
    DecodeLinesAppend(parse, before + [bad], after);
    DecodeLinesAppend(parse, before, [bad]);
    DecodeLinesAppend(parse, before, after);
  }

  // ---------------------------------------------------------------------------
  // The decoder state across progress events

  /** `lastChunkResponse` and `fullResponse`. */
  datatype DecoderState = DecoderState(last: string, full: string)

  const Initial := DecoderState("", "")

  /** `chunk.substring(n)`: the text beyond the first `n` characters, empty when `n` is past the end. */
  function NewSuffix(chunk: string, n: nat): (r: string)
    ensures |r| == if n <= |chunk| then |chunk| - n else 0
  {
    if n <= |chunk| then chunk[n..] else ""
  }

  /** The first `n` characters followed by the new suffix give the snapshot back. */
  lemma NewSuffixRestores(chunk: string, n: nat)
    requires n <= |chunk|
    ensures chunk[..n] + NewSuffix(chunk, n) == chunk
  {
  }

  /** One progress event carrying the snapshot `chunk`. */
  function Feed(parse: Parser, st: DecoderState, chunk: string): DecoderState {
    if chunk == "" then st
    else DecoderState(chunk, st.full + DecodeText(parse, NewSuffix(chunk, |st.last|)))
  }

  /** The state after a sequence of progress events. */
  function Run(parse: Parser, st: DecoderState, chunks: seq<string>): DecoderState {
    if chunks == [] then st
    else Feed(parse, Run(parse, st, chunks[..|chunks| - 1]), chunks[|chunks| - 1])
  }

  /** The response assembled from a whole stream. */
  function Decoded(parse: Parser, chunks: seq<string>): string {
    Run(parse, Initial, chunks).full
  }

  /** An empty snapshot is ignored and does not advance the remembered snapshot. */
  lemma FeedEmptyIgnored(parse: Parser, st: DecoderState)
    ensures Feed(parse, st, "") == st
  {
  }

  /** The running response only grows by appending. */
  lemma FeedExtends(parse: Parser, st: DecoderState, chunk: string)
    ensures st.full <= Feed(parse, st, chunk).full
  {
  }

  /** Re-delivering the same snapshot adds nothing. */
  lemma FeedIdempotent(parse: Parser, st: DecoderState, chunk: string)
    ensures Feed(parse, Feed(parse, st, chunk), chunk) == Feed(parse, st, chunk)
  {
    if chunk != "" {
      assert NewSuffix(chunk, |chunk|) == "";
      assert SplitLines("") == [""];
      assert DecodeLines(parse, [""]) == "";
    }
  }

  /** Over a whole stream, the earlier response is a prefix of the later one. */
  lemma {:induction false} RunExtends(parse: Parser, st: DecoderState, chunks: seq<string>)
    ensures st.full <= Run(parse, st, chunks).full
    decreases |chunks|
  {
    if chunks != [] {
      var pre := chunks[..|chunks| - 1];
      RunExtends(parse, st, pre);
      FeedExtends(parse, Run(parse, st, pre), chunks[|chunks| - 1]);
    }
  }

  /** The text ends at a line boundary: nothing, or a final line feed. */
  predicate AtLineBoundary(s: string) {
    s == "" || s[|s| - 1] == '\n'
  }

  /** Text ending at a line boundary decodes independently of what follows it. */
  lemma DecodeTextAppend(parse: Parser, a: string, b: string)
    requires AtLineBoundary(a)
    ensures DecodeText(parse, a + b) == DecodeText(parse, a) + DecodeText(parse, b)
  {
    if a == "" {
      assert a + b == b;
      InitialAccounted(parse);
      assert DecodeText(parse, a) + DecodeText(parse, b) == DecodeText(parse, b);
    } else {
      var x := a[..|a| - 1];
      assert a == x + "\n";
      DecodeAfterLineFeed(parse, x, b);
    }
  }

  /** The case of `DecodeTextAppend` where the first part ends with its line feed. */
  lemma DecodeAfterLineFeed(parse: Parser, x: string, b: string)
    ensures DecodeText(parse, (x + "\n") + b) == DecodeText(parse, x + "\n") + DecodeText(parse, b)
  {
    assert x + "\n" == x + "\n" + "";
    DecodeAcrossLineFeed(parse, x, "");
    DecodeAcrossLineFeed(parse, x, b);
    InitialAccounted(parse);
  }

  /** Text on either side of a line feed decodes separately. */
  lemma DecodeAcrossLineFeed(parse: Parser, x: string, y: string)
    ensures DecodeText(parse, x + "\n" + y) == DecodeText(parse, x) + DecodeText(parse, y)
  {
    SplitAtLineFeed(x, y);
    DecodeLinesAppend(parse, SplitLines(x), SplitLines(y));
  }

  /**
   * The decoder's state is accounted for: the running response is what the
   * remembered snapshot decodes to as a whole.
   */
  predicate Accounted(parse: Parser, st: DecoderState) {
    AtLineBoundary(st.last) && st.full == DecodeText(parse, st.last)
  }

  /**
   * A snapshot that extends the remembered one and ends at a line boundary
   * keeps the state accounted for: every line is decoded exactly once.
   */
  lemma FeedAccounted(parse: Parser, st: DecoderState, chunk: string)
    requires Accounted(parse, st)
    requires st.last <= chunk && AtLineBoundary(chunk)
    ensures Accounted(parse, Feed(parse, st, chunk))
  {
    if chunk != "" {
      var suffix := NewSuffix(chunk, |st.last|);
      NewSuffixRestores(chunk, |st.last|);
      assert chunk == st.last + suffix;
      DecodeTextAppend(parse, st.last, suffix);
    }
  }

  /** Snapshots each extend the previous one and end at a line boundary. */
  predicate GrowsByWholeLines(chunks: seq<string>) {
    (forall k :: 0 <= k < |chunks| ==> AtLineBoundary(chunks[k]))
    && (forall k, l :: 0 <= k < l < |chunks| ==> chunks[k] <= chunks[l])
  }

  /** The snapshot the decoder remembers after a run: the last non-empty one, or the starting one. */
  lemma {:induction false} RunRemembersLast(parse: Parser, st: DecoderState, chunks: seq<string>)
    ensures Run(parse, st, chunks).last == st.last
      || exists k :: 0 <= k < |chunks| && chunks[k] != "" && Run(parse, st, chunks).last == chunks[k]
    decreases |chunks|
  {
    if chunks != [] {
      RunRemembersLast(parse, st, chunks[..|chunks| - 1]);
    }
  }

  /**
   * When snapshots grow by whole lines, every line of the final snapshot is
   * decoded exactly once: the final response is the decoding of the final
   * snapshot as a whole.
   */
  lemma {:induction false} RunAccounted(parse: Parser, chunks: seq<string>)
    requires GrowsByWholeLines(chunks)
    ensures Accounted(parse, Run(parse, Initial, chunks))
    ensures chunks != [] && chunks[|chunks| - 1] != "" ==>
      Decoded(parse, chunks) == DecodeText(parse, chunks[|chunks| - 1])
    decreases |chunks|
  {
    if chunks == [] {
      InitialAccounted(parse);
    } else {
      var pre := chunks[..|chunks| - 1];
      var c := chunks[|chunks| - 1];
      assert chunks == pre + [c];
      GrowsByWholeLinesSnoc(pre, c);
      RunAccounted(parse, pre);
      RunRemembersLast(parse, Initial, pre);
      var last := Run(parse, Initial, pre).last;
      if last != "" {
        var k :| 0 <= k < |pre| && pre[k] != "" && last == pre[k];
      }
      RunAccountedStep(parse, pre, c);
    }
  }

  /** Nothing received, nothing decoded. */
  lemma InitialAccounted(parse: Parser)
    ensures Accounted(parse, Initial)
  {
    assert SplitLines("") == [""];
    assert DecodeLines(parse, [""]) == "";
  }

  /** One more snapshot that extends the remembered one by whole lines keeps the run accounted for. */
  lemma RunAccountedStep(parse: Parser, pre: seq<string>, c: string)
    requires Accounted(parse, Run(parse, Initial, pre))
    requires Run(parse, Initial, pre).last <= c && AtLineBoundary(c)
    ensures Accounted(parse, Run(parse, Initial, pre + [c]))
    ensures c != "" ==> Run(parse, Initial, pre + [c]).last == c
  {
    FeedAccounted(parse, Run(parse, Initial, pre), c);
    RunSnoc(parse, Initial, pre, c);
  }

  /** The snapshots before the last one grow by whole lines, and each is a prefix of the last. */
  lemma GrowsByWholeLinesSnoc(pre: seq<string>, c: string)
    requires GrowsByWholeLines(pre + [c])
    ensures GrowsByWholeLines(pre) && AtLineBoundary(c)
    ensures forall k :: 0 <= k < |pre| ==> pre[k] <= c
  {
    var chunks := pre + [c];
    assert forall k :: 0 <= k < |pre| ==> pre[k] == chunks[k];
    assert chunks[|pre|] == c;
  }

  /**
   * A `data:` line split across two snapshots is lost: its first half fails
   * to decode and its second half lacks the prefix, whereas the complete line
   * in one snapshot would have been decoded.
   */
  lemma SplitLineLost(parse: Parser, head: string, tail: string)
    requires '\n' !in head && '\n' !in tail
    requires parse(" " + head) == None && !(DataPrefix <= tail)
    ensures Decoded(parse, [DataPrefix + head, DataPrefix + head + tail + "\n"]) == ""
    ensures DecodeText(parse, DataPrefix + head + tail + "\n") == LineText(parse, DataPrefix + head + tail)
  {
    IncompleteHalvesAddNothing(parse, head, tail);
    var line := DataPrefix + head + tail;
    assert '\n' !in line;
    WholeLineDecodes(parse, line);
  }

  /** The two halves of a split line, fed as separate snapshots, contribute nothing. */
  lemma IncompleteHalvesAddNothing(parse: Parser, head: string, tail: string)
    requires '\n' !in head && '\n' !in tail
    requires parse(" " + head) == None && !(DataPrefix <= tail)
    ensures Decoded(parse, [DataPrefix + head, DataPrefix + head + tail + "\n"]) == ""
  {
    var first := DataPrefix + head;
    var second := DataPrefix + head + tail + "\n";
    FirstHalfAddsNothing(parse, head);
    assert NewSuffix(second, |first|) == tail + "\n";
    SecondHalfAddsNothing(parse, tail);
    RunSnoc(parse, Initial, [first], second);
    assert [first] + [second] == [first, second];
  }

  /** A snapshot ending inside a `data:` line whose payload does not parse adds nothing. */
  lemma FirstHalfAddsNothing(parse: Parser, head: string)
    requires '\n' !in head && parse(" " + head) == None
    ensures Run(parse, Initial, [DataPrefix + head]) == DecoderState(DataPrefix + head, "")
  {
    var first := DataPrefix + head;
    assert '\n' !in first;
    SingleLineText(parse, first);
    DataLineReads(parse, head);
    assert NewSuffix(first, 0) == first;
    RunSnoc(parse, Initial, [], first);
    assert [] + [first] == [first];
  }

  /** The rest of a split line, lacking the `data: ` prefix, adds nothing. */
  lemma SecondHalfAddsNothing(parse: Parser, tail: string)
    requires '\n' !in tail && !(DataPrefix <= tail)
    ensures DecodeText(parse, tail + "\n") == ""
  {
    assert tail + "\n" == tail + "\n" + "";
    assert SplitLines("") == [""];
    SplitAtLineFeed(tail, "");
    SplitNoLineFeed(tail);
    assert LineText(parse, tail) == "" && LineText(parse, "") == "";
    assert DecodeLines(parse, [tail, ""]) == LineText(parse, tail) + DecodeLines(parse, [""]);
  }

  /**
   * The stream `Hi`, ` there`, `[DONE]`, one line per snapshot: the running
   * response reads `Hi`, then `Hi there`, and is not changed by `[DONE]`.
   */
  lemma TwoDeltasThenDone(parse: Parser, p1: string, p2: string, t1: string, t2: string)
    requires '\n' !in p1 && '\n' !in p2
    requires parse(" " + p1) == Some(Delta(Some(t1))) && parse(" " + p2) == Some(Delta(Some(t2)))
    requires RejectsDone(parse)
    ensures var s1 := DataPrefix + p1 + "\n";
      var s2 := s1 + DataPrefix + p2 + "\n";
      var s3 := s2 + DataPrefix + DoneSentinel + "\n";
      && Decoded(parse, [s1]) == t1
      && Decoded(parse, [s1, s2]) == t1 + t2
      && Decoded(parse, [s1, s2, s3]) == t1 + t2
  {
    var s1 := DataPrefix + p1 + "\n";
    var s2 := s1 + DataPrefix + p2 + "\n";
    var s3 := s2 + DataPrefix + DoneSentinel + "\n";
    FirstDeltaRead(parse, p1, t1);
    NextDeltaRead(parse, [s1], p2, t2);
    assert [s1] + [s2] == [s1, s2];
    DoneReadsNothing(parse, [s1, s2]);
    assert [s1, s2] + [s3] == [s1, s2, s3];
  }

  /** A first snapshot with one complete delta line reads that delta's text. */
  lemma FirstDeltaRead(parse: Parser, payload: string, t: string)
    requires '\n' !in payload && parse(" " + payload) == Some(Delta(Some(t)))
    ensures var c := DataPrefix + payload + "\n";
      Run(parse, Initial, [c]) == DecoderState(c, t)
  {
    DataLineText(parse, payload, t);
    RunFirstLine(parse, payload);
  }

  /** A further snapshot adding one complete delta line appends that delta's text. */
  lemma NextDeltaRead(parse: Parser, chunks: seq<string>, payload: string, t: string)
    requires '\n' !in payload && parse(" " + payload) == Some(Delta(Some(t)))
    ensures var st := Run(parse, Initial, chunks);
      var c := st.last + DataPrefix + payload + "\n";
      Run(parse, Initial, chunks + [c]) == DecoderState(c, st.full + t)
  {
    DataLineText(parse, payload, t);
    RunNextLine(parse, chunks, payload);
  }

  /** A further snapshot adding the `data: [DONE]` line leaves the response as it was. */
  lemma DoneReadsNothing(parse: Parser, chunks: seq<string>)
    requires RejectsDone(parse)
    ensures var st := Run(parse, Initial, chunks);
      var c := st.last + DataPrefix + DoneSentinel + "\n";
      Run(parse, Initial, chunks + [c]) == DecoderState(c, st.full)
  {
    var st := Run(parse, Initial, chunks);
    DoneLineAddsNothing(parse);
    RunNextLine(parse, chunks, DoneSentinel);
    assert st.full + "" == st.full;
  }

  /** A first snapshot holding one complete `data:` line. */
  lemma RunFirstLine(parse: Parser, payload: string)
    requires '\n' !in payload
    ensures var c := DataPrefix + payload + "\n";
      Run(parse, Initial, [c]) == DecoderState(c, LineText(parse, DataPrefix + payload))
  {
    var c := DataPrefix + payload + "\n";
    FeedOneLine(parse, Initial, payload);
    assert "" + DataPrefix + payload + "\n" == c;
    RunSnoc(parse, Initial, [], c);
    assert [] + [c] == [c];
  }

  /** A further snapshot that adds one complete `data:` line to the last one. */
  lemma RunNextLine(parse: Parser, chunks: seq<string>, payload: string)
    requires '\n' !in payload
    ensures var st := Run(parse, Initial, chunks);
      var c := st.last + DataPrefix + payload + "\n";
      Run(parse, Initial, chunks + [c]) == DecoderState(c, st.full + LineText(parse, DataPrefix + payload))
  {
    var st := Run(parse, Initial, chunks);
    FeedOneLine(parse, st, payload);
    RunSnoc(parse, Initial, chunks, st.last + DataPrefix + payload + "\n");
  }

  /** A run over one more snapshot feeds that snapshot to the state reached so far. */
  lemma RunSnoc(parse: Parser, st: DecoderState, chunks: seq<string>, c: string)
    ensures Run(parse, st, chunks + [c]) == Feed(parse, Run(parse, st, chunks), c)
  {
    assert (chunks + [c])[..|chunks|] == chunks;
  }

  /** A line whose payload parses to a delta contributes that delta's text. */
  lemma DataLineText(parse: Parser, payload: string, t: string)
    requires parse(" " + payload) == Some(Delta(Some(t)))
    ensures LineText(parse, DataPrefix + payload) == t
  {
    DataLineReads(parse, payload);
  }

  /** A `data:` line contributes what its payload, space included, parses to; nothing when that fails. */
  lemma DataLineReads(parse: Parser, payload: string)
    ensures LineText(parse, DataPrefix + payload) ==
      if parse(" " + payload).Some? then DeltaText(parse(" " + payload).value) else ""
  {
    var line := DataPrefix + payload;
    assert line[5..] == " " + payload;
    DoneTestNeverMatches(line);
  }

  /** A snapshot that adds one complete `data:` line adds that line's text. */
  lemma FeedOneLine(parse: Parser, st: DecoderState, payload: string)
    requires '\n' !in payload
    ensures var chunk := st.last + DataPrefix + payload + "\n";
      Feed(parse, st, chunk) == DecoderState(chunk, st.full + LineText(parse, DataPrefix + payload))
  {
    var chunk := st.last + DataPrefix + payload + "\n";
    assert NewSuffix(chunk, |st.last|) == DataPrefix + payload + "\n";
    LineDecodes(parse, payload);
  }

  /** A complete line `data: <payload>` decodes to the delta its payload parses to. */
  lemma LineDecodes(parse: Parser, payload: string)
    requires '\n' !in payload
    ensures DecodeText(parse, DataPrefix + payload + "\n") == LineText(parse, DataPrefix + payload)
    ensures (DataPrefix + payload)[5..] == " " + payload
  {
    var line := DataPrefix + payload;
    assert '\n' !in line;
    WholeLineDecodes(parse, line);
  }

  /** A complete line followed by its line feed decodes to that line's text. */
  lemma WholeLineDecodes(parse: Parser, line: string)
    requires '\n' !in line
    ensures DecodeText(parse, line + "\n") == LineText(parse, line)
  {
    SplitOneLine(line);
    assert [line, ""][1..] == [""];
    assert DecodeLines(parse, [""]) == "";
    assert DecodeLines(parse, [line, ""]) == LineText(parse, line) + "";
  }

  /** Text without a line feed decodes as its single line. */
  lemma SingleLineText(parse: Parser, line: string)
    requires '\n' !in line
    ensures DecodeText(parse, line) == LineText(parse, line)
  {
    SplitNoLineFeed(line);
    assert [line][1..] == [];
    assert DecodeLines(parse, [line]) == LineText(parse, line) + DecodeLines(parse, []);
  }

  // ---------------------------------------------------------------------------
  // The decoder as the closure state of one request

  class Decoder {
    var lastChunk: string
    var fullResponse: string

    function State(): DecoderState
      reads this
    {
      DecoderState(lastChunk, fullResponse)
    }

    constructor ()
      ensures State() == Initial
    {
      lastChunk := "";
      fullResponse := "";
    }

    /** The `onDownloadProgress` handler. */
    method OnProgress(parse: Parser, chunk: string)
      modifies this
      ensures State() == Feed(parse, old(State()), chunk)
    {
      if chunk == "" {
        return;
      }
      var newChunk := NewSuffix(chunk, |lastChunk|);
      lastChunk := chunk;
      AppendLines(parse, SplitLines(newChunk));
    }

    /** The loop over the lines of the new text: each line appends what it decodes to. */
    method AppendLines(parse: Parser, lines: seq<string>)
      modifies this
      ensures lastChunk == old(lastChunk)
      ensures fullResponse == old(fullResponse) + DecodeLines(parse, lines)
    {
      for i := 0 to |lines|
        invariant lastChunk == old(lastChunk)
        invariant fullResponse == old(fullResponse) + DecodeLines(parse, lines[..i])
      {
        var line := lines[i];
        assert lines[..i + 1] == lines[..i] + [line];
        DecodeLinesSnoc(parse, lines[..i], line);
        LineTextCases(parse, line);
        if DataPrefix <= line {
          var data := line[5..];
          if data == DoneSentinel {
            continue;
          }
          var parsed := parse(data);
          if parsed.Some? {
            fullResponse := fullResponse + DeltaText(parsed.value);
          }
          // otherwise JSON.parse threw: the error is logged and the line skipped
        }
      }
      assert lines[..|lines|] == lines;
    }
  }
}
