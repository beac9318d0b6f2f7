/**
 * The text side of `GTFTransform` in `src/api.js`: incoming text is cut into
 * lines at `\n` and `\r\n`; the trailing fragment waits in `textBuffer` for
 * the next chunk, and every complete non-empty line is handed to the parser.
 */
module LineTransform {
  import opened Wrappers
  import opened JsString
  import opened ParseOptions

  /** What the transform holds and has done: the pending fragment, the lines given to the parser, the errors emitted. */
  datatype Feed = Feed(textBuffer: string, lines: seq<string>, errors: nat)

  /** `this.maxLineLength && this.textBuffer.length > this.maxLineLength`. */
  predicate TooLong(maxLineLength: Option<nat>, fragment: string) {
    maxLineLength.Some? && maxLineLength.value > 0 && |fragment| > maxLineLength.value
  }

  /** `_addLine(data)`: an empty line is not passed on. */
  function AddLineSpec(f: Feed, data: string): Feed {
    f.(lines := f.lines + (if data != "" then [data] else []))
  }

  /**
   * `_nextText(buffer)`: the fragment is always replaced by the new trailing
   * piece; when that piece is too long an error is emitted and none of the
   * complete lines is passed on.
   */
  function NextTextSpec(f: Feed, maxLineLength: Option<nat>, buffer: string): Feed {
    var pieces := SplitLines(f.textBuffer + buffer);
    if TooLong(maxLineLength, Last(pieces)) then Feed(Last(pieces), f.lines, f.errors + 1)
    else Feed(Last(pieces), f.lines + NonEmpty(Init(pieces)), f.errors)
  }

  /** `_flush`: the decoder's rest (empty text) goes through `_nextText`, then the fragment is passed on as a line. */
  function FlushSpec(f: Feed, maxLineLength: Option<nat>): Feed {
    var g := NextTextSpec(f, maxLineLength, "");
    AddLineSpec(g, g.textBuffer)
  }

  /** The chunks fed one after another to a fresh transform. */
  function FeedAll(maxLineLength: Option<nat>, chunks: seq<string>): Feed {
    if |chunks| == 0 then Feed("", [], 0)
    else NextTextSpec(FeedAll(maxLineLength, chunks[..|chunks| - 1]), maxLineLength, chunks[|chunks| - 1])
  }

  /** `GTFTransform`: the parser itself is not modelled, only the lines it is given and whether it was finished. */
  class GtfTransform {
    const options: Options
    const encoding: string
    var textBuffer: string
    /** Never assigned by the constructor; a caller may set it. */
    var maxLineLength: Option<nat>
    var lines: seq<string>
    var errors: nat
    var finished: bool

    function State(): Feed
      reads this
    {
      Feed(textBuffer, lines, errors)
    }

    constructor(inputOptions: Options)
      ensures options == ProcessParseOptions(inputOptions, Options())
      ensures encoding == if TruthyText(inputOptions.encoding) then inputOptions.encoding.value else "utf8"
      ensures State() == Feed("", [], 0) && maxLineLength.None? && !finished
    {
      options := ProcessParseOptions(inputOptions, Options());
      encoding := if TruthyText(inputOptions.encoding) then inputOptions.encoding.value else "utf8";
      textBuffer := "";
      maxLineLength := None;
      lines := [];
      errors := 0;
      finished := false;
    }

    method AddLine(data: string)
      modifies this
      ensures State() == AddLineSpec(old(State()), data)
      ensures maxLineLength == old(maxLineLength) && finished == old(finished)
    {
      if data != "" {
        lines := lines + [data];
      }
    }

    method NextText(buffer: string)
      modifies this
      ensures State() == NextTextSpec(old(State()), maxLineLength, buffer)
      ensures maxLineLength == old(maxLineLength) && finished == old(finished)
    {
      var pieces := SplitLines(textBuffer + buffer);
      textBuffer := pieces[|pieces| - 1];
      pieces := pieces[..|pieces| - 1];
      if maxLineLength.Some? && maxLineLength.value > 0 && |textBuffer| > maxLineLength.value {
        errors := errors + 1;
        return;
      }
      for i := 0 to |pieces|
        invariant lines == old(lines) + NonEmpty(pieces[..i])
        invariant textBuffer == Last(SplitLines(old(textBuffer) + buffer)) && errors == old(errors)
        invariant maxLineLength == old(maxLineLength) && finished == old(finished)
      {
        AddLine(pieces[i]);
        assert pieces[..i + 1][..i] == pieces[..i];
      }
      assert pieces[..|pieces|] == pieces;
    }

    /** `_transform(chunk)`: the chunk is taken as already decoded text. */
    method Transform(chunk: string)
      modifies this
      ensures State() == NextTextSpec(old(State()), maxLineLength, chunk)
      ensures maxLineLength == old(maxLineLength) && finished == old(finished)
    {
      NextText(chunk);
    }

    method Flush()
      modifies this
      ensures State() == FlushSpec(old(State()), maxLineLength)
      ensures maxLineLength == old(maxLineLength) && finished
    {
      NextText("");
      AddLine(textBuffer);
      finished := true;
    }
  }

  // ---------------------------------------------------------------------
  // properties

  /**
   * Without a line limit, the lines passed on do not depend on where the text
   * was cut into chunks: they are the non-empty complete lines of the whole
   * text, and the fragment is its last piece.
   */
  lemma {:induction false} FeedAllLines(chunks: seq<string>)
    ensures var pieces := SplitLines(Concat(chunks));
      FeedAll(None, chunks) == Feed(Last(pieces), NonEmpty(Init(pieces)), 0)
  {
    if |chunks| > 0 {
      var front, c := chunks[..|chunks| - 1], chunks[|chunks| - 1];
      FeedAllLines(front);
      assert Concat(chunks) == Concat(front) + c;
      FeedStep(Concat(front), c);
    }
  }

  /** One more chunk: the state for the text so far becomes the state for the longer text. */
  lemma FeedStep(x: string, c: string)
    ensures var p, r := SplitLines(x), SplitLines(x + c);
      NextTextSpec(Feed(Last(p), NonEmpty(Init(p)), 0), None, c) == Feed(Last(r), NonEmpty(Init(r)), 0)
  {
    var p := SplitLines(x);
    var q := SplitLines(Last(p) + c);
    SplitLinesAppend(x, c);
    LinesOfConcat(Init(p), q);
    NonEmptyAppend(Init(p), Init(q));
  }

  lemma LinesOfConcat(a: seq<string>, q: seq<string>)
    requires |q| >= 1
    ensures Last(a + q) == Last(q) && Init(a + q) == a + Init(q)
  {
    assert (a + q)[..|a + q| - 1] == a + q[..|q| - 1];
  }

  /**
   * After the flush, the parser has been given exactly the non-empty lines of
   * the whole text, the last one included even without a final line break.
   */
  lemma FlushedLines(chunks: seq<string>)
    ensures FlushSpec(FeedAll(None, chunks), None).lines == NonEmpty(SplitLines(Concat(chunks)))
    ensures FlushSpec(FeedAll(None, chunks), None).errors == 0
  {
    FeedAllLines(chunks);
    var pieces := SplitLines(Concat(chunks));
    LastNoNewline(Concat(chunks));
    FlushFragment(Last(pieces), NonEmpty(Init(pieces)));
    assert pieces == Init(pieces) + [Last(pieces)];
    NonEmptyAppend(Init(pieces), [Last(pieces)]);
  }

  /** Flushing a fragment without `\n` passes it on as the last line when it is not empty. */
  lemma FlushFragment(t: string, lines: seq<string>)
    requires '\n' !in t
    ensures FlushSpec(Feed(t, lines, 0), None) == Feed(t, lines + NonEmpty([t]), 0)
  {
    assert t + "" == t;
    NoNewlineSplitLines(t);
    assert Init([t]) == [] && Last([t]) == t;
    assert NonEmpty([t]) == (if t == "" then [] else [t]) by {
      assert [t][..0] == [];
    }
  }

  /**
   * A line limit changes nothing as long as no error was emitted; and then no
   * fragment ever held was longer than the limit.
   */
  lemma {:induction false} WithinLimit(maxLineLength: Option<nat>, chunks: seq<string>)
    ensures FeedAll(maxLineLength, chunks).errors == 0 ==>
      FeedAll(maxLineLength, chunks) == FeedAll(None, chunks) &&
      !TooLong(maxLineLength, FeedAll(maxLineLength, chunks).textBuffer)
  {
    if |chunks| > 0 {
      WithinLimit(maxLineLength, chunks[..|chunks| - 1]);
    }
  }

  /** The pieces are the text: put back together with the line breaks removed, they give the text again. */
  lemma PiecesRebuildText(chunks: seq<string>)
    ensures Interleave(SplitLines(Concat(chunks)), LineBreaks(Concat(chunks))) == Concat(chunks)
  {
    SplitLinesRebuild(Concat(chunks));
  }
}
