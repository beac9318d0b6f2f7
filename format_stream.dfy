/**
 * The formatting side of `src/api.js`: `formatSync`, which writes the
 * sequences last under a `##FASTA` directive, and `FormattingTransform`,
 * which formats a stream of items chunk by chunk, inserting a version
 * directive, a `##FASTA` directive and `###` synchronisation marks.
 */
module FormatStream {
  import opened Wrappers
  import opened JsString
  import opened Items
  import opened Directives
  import opened ItemFormat

  // ---------------------------------------------------------------------
  // formatSync

  /** The items with a truthy `sequence`, in order. */
  function Sequences(items: seq<Item>): (r: seq<Item>)
    ensures forall i :: 0 <= i < |r| ==> HasSequence(r[i])
  {
    if |items| == 0 then []
    else Sequences(items[..|items| - 1]) + (if HasSequence(items[|items| - 1]) then [items[|items| - 1]] else [])
  }

  /** The other items, in order. */
  function Others(items: seq<Item>): (r: seq<Item>)
    ensures forall i :: 0 <= i < |r| ==> !HasSequence(r[i])
  {
    if |items| == 0 then []
    else Others(items[..|items| - 1]) + (if HasSequence(items[|items| - 1]) then [] else [items[|items| - 1]])
  }

  /** `items.map(formatItem).join('')`. */
  function ItemsText(items: seq<Item>): string {
    Concat(seq(|items|, i requires 0 <= i < |items| => Coerce(FormatItem(items[i]))))
  }

  /** `sequences.map(formatSequence).join('')`. */
  function SequencesText(sequences: seq<Item>): string
    requires forall i :: 0 <= i < |sequences| ==> HasSequence(sequences[i])
  {
    if |sequences| == 0 then ""
    else
      var last := sequences[|sequences| - 1];
      assert HasSequence(last);
      SequencesText(sequences[..|sequences| - 1]) + FormatSequence(last)
  }

  /** What `formatSync(items)` returns. */
  function FormatSyncText(items: seq<Item>): string {
    var sequences := Sequences(items);
    ItemsText(Others(items)) + (if |sequences| > 0 then "##FASTA\n" + SequencesText(sequences) else "")
  }

  /** `formatSync(items)`: the items are sorted into sequences and others in one pass. */
  method FormatSync(items: seq<Item>) returns (str: string)
    ensures str == FormatSyncText(items)
  {
    var other: seq<Item> := [];
    var sequences: seq<Item> := [];
    for i := 0 to |items|
      invariant other == Others(items[..i]) && sequences == Sequences(items[..i])
    {
      assert items[..i + 1][..i] == items[..i];
      if HasSequence(items[i]) {
        sequences := sequences + [items[i]];
      } else {
        other := other + [items[i]];
      }
    }
    assert items[..|items|] == items;
    str := ItemsText(other);
    if |sequences| > 0 {
      str := str + "##FASTA\n";
      str := str + SequencesText(sequences);
    }
  }

  /** Sorting loses and adds nothing: the sequences and the others together are the items. */
  lemma {:induction false} SortedIsPartition(items: seq<Item>)
    ensures multiset(Sequences(items)) + multiset(Others(items)) == multiset(items)
  {
    if |items| > 0 {
      var front, last := items[..|items| - 1], items[|items| - 1];
      SortedIsPartition(front);
      MultisetSnoc(items);
      if HasSequence(last) {
        assert Sequences(items) == Sequences(front) + [last] && Others(items) == Others(front);
      } else {
        assert Sequences(items) == Sequences(front) && Others(items) == Others(front) + [last];
      }
    }
  }

  lemma MultisetSnoc(xs: seq<Item>)
    requires |xs| > 0
    ensures multiset(xs) == multiset(xs[..|xs| - 1]) + multiset{xs[|xs| - 1]}
  {
    assert xs == xs[..|xs| - 1] + [xs[|xs| - 1]];
  }

  /** The FASTA section is written exactly when some item has a sequence. */
  lemma {:induction false} FastaSectionWhenSequences(items: seq<Item>)
    ensures |Sequences(items)| > 0 <==> exists i :: 0 <= i < |items| && HasSequence(items[i])
  {
    if |items| > 0 {
      var front := items[..|items| - 1];
      FastaSectionWhenSequences(front);
      if exists i :: 0 <= i < |front| && HasSequence(front[i]) {
        var i :| 0 <= i < |front| && HasSequence(front[i]);
        assert items[i] == front[i];
      }
      if exists i :: 0 <= i < |items| && HasSequence(items[i]) {
        var i :| 0 <= i < |items| && HasSequence(items[i]);
        if i < |front| {
          assert front[i] == items[i];
        }
      }
    }
  }

  /** Without sequences nothing is moved: the output is every item formatted, in the order given. */
  lemma NoSequencesInOrder(items: seq<Item>)
    requires forall i :: 0 <= i < |items| ==> !HasSequence(items[i])
    ensures Sequences(items) == [] && Others(items) == items
    ensures FormatSyncText(items) == ItemsText(items)
  {
    NoSequencesSorted(items);
  }

  lemma {:induction false} NoSequencesSorted(items: seq<Item>)
    requires forall i :: 0 <= i < |items| ==> !HasSequence(items[i])
    ensures Sequences(items) == [] && Others(items) == items
  {
    if |items| > 0 {
      var front := items[..|items| - 1];
      assert forall i :: 0 <= i < |front| ==> front[i] == items[i];
      NoSequencesSorted(front);
      assert front + [items[|items| - 1]] == items;
    }
  }

  // ---------------------------------------------------------------------
  // FormattingTransform

  /** What `_transform` pushes: the inserted directives, the formatted text, a synchronisation mark. */
  datatype Push = VersionDirective | FastaDirective | Data(text: string) | SyncMark

  function PushText(p: Push): string {
    match p
    case VersionDirective => "##gff-version 2\n"
    case FastaDirective => "##FASTA\n"
    case Data(s) => s
    case SyncMark => "###\n"
  }

  datatype FmtState = FmtState(linesSinceLastSyncMark: nat, haveWeEmittedData: bool, fastaMode: bool)

  /** The text of one chunk: an array is formatted item by item and joined. */
  function ChunkText(chunk: Item): string {
    if chunk.Array? then ItemsText(chunk.elements) else Coerce(FormatItem(chunk))
  }

  /** What `_transform` looks at in a chunk: the directive it starts with, whether it is a sequence, its formatted text. */
  datatype View = View(lead: Option<string>, sequence: bool, text: string)

  function ViewOf(chunk: Item): View {
    View(LeadingDirective(chunk), HasSequence(chunk), ChunkText(chunk))
  }

  /** Whether the chunk gets the version directive in front of it. */
  predicate NeedsVersion(insertVersionDirective: bool, st: FmtState, v: View) {
    !st.haveWeEmittedData && insertVersionDirective && v.lead != Some("gff-version")
  }

  /** The pushes of one `_transform` call, by which of the optional ones happen. */
  function Block(version: bool, fasta: bool, text: string, mark: bool): seq<Push> {
    (if version then [VersionDirective] else []) +
    (if fasta then [FastaDirective] else []) +
    [Data(text)] +
    (if mark then [SyncMark] else [])
  }

  /** What `_transform(chunk)` pushes. */
  function StepPushes(minLines: nat, insertVersionDirective: bool, st: FmtState, v: View): seq<Push> {
    Block(NeedsVersion(insertVersionDirective, st, v), v.sequence && !st.fastaMode,
          v.text, st.linesSinceLastSyncMark >= minLines)
  }

  /** The state after `_transform(chunk)`: the line counter is reset by a mark, and otherwise grows by the chunk's line breaks. */
  function StepState(minLines: nat, st: FmtState, v: View): FmtState {
    FmtState(
      if st.linesSinceLastSyncMark >= minLines then 0
      else st.linesSinceLastSyncMark + Count(v.text, '\n'),
      true,
      st.fastaMode || v.sequence)
  }

  class FormattingTransform {
    var linesSinceLastSyncMark: nat
    const minLinesBetweenSyncMarks: nat
    const insertVersionDirective: bool
    var haveWeEmittedData: bool
    var fastaMode: bool
    /** Everything pushed so far, in order. */
    var pushed: seq<Push>

    function State(): FmtState
      reads this
    {
      FmtState(linesSinceLastSyncMark, haveWeEmittedData, fastaMode)
    }

    /** `options.minSyncLines || 100` and `options.insertVersionDirective || false`. */
    constructor(minSyncLines: Option<nat>, insertVersion: Option<bool>)
      ensures minLinesBetweenSyncMarks == if minSyncLines.Some? && minSyncLines.value > 0 then minSyncLines.value else 100
      ensures insertVersionDirective == (insertVersion == Some(true))
      ensures State() == FmtState(0, false, false) && pushed == []
    {
      linesSinceLastSyncMark := 0;
      minLinesBetweenSyncMarks := if minSyncLines.Some? && minSyncLines.value > 0 then minSyncLines.value else 100;
      insertVersionDirective := insertVersion == Some(true);
      haveWeEmittedData := false;
      fastaMode := false;
      pushed := [];
    }

    method Transform(chunk: Item)
      modifies this
      ensures pushed == old(pushed) + StepPushes(minLinesBetweenSyncMarks, insertVersionDirective, old(State()), ViewOf(chunk))
      ensures State() == StepState(minLinesBetweenSyncMarks, old(State()), ViewOf(chunk))
    {
      ghost var start := pushed;
      ghost var v: seq<Push> := if !haveWeEmittedData && insertVersionDirective && LeadingDirective(chunk) != Some("gff-version") then [VersionDirective] else [];
      ghost var f: seq<Push> := if HasSequence(chunk) && !fastaMode then [FastaDirective] else [];
      ghost var m: seq<Push> := if linesSinceLastSyncMark >= minLinesBetweenSyncMarks then [SyncMark] else [];
      if !haveWeEmittedData && insertVersionDirective && LeadingDirective(chunk) != Some("gff-version") {
        pushed := pushed + [VersionDirective];
      }
      assert pushed == start + v;
      if HasSequence(chunk) && !fastaMode {
        pushed := pushed + [FastaDirective];
        fastaMode := true;
      }
      assert pushed == start + v + f;
      var str := ChunkText(chunk);
      pushed := pushed + [Data(str)];
      if linesSinceLastSyncMark >= minLinesBetweenSyncMarks {
        pushed := pushed + [SyncMark];
        linesSinceLastSyncMark := 0;
      } else {
        var count := CountLineBreaks(str);
        linesSinceLastSyncMark := linesSinceLastSyncMark + count;
      }
      assert pushed == start + v + f + [Data(str)] + m;
      haveWeEmittedData := true;
      AppendFour(start, v, f, [Data(str)], m);
    }
  }

  /** The counting loop of `_transform`. */
  method CountLineBreaks(str: string) returns (count: nat)
    ensures count == Count(str, '\n')
  {
    count := 0;
    for i := 0 to |str|
      invariant count == Count(str[..i], '\n')
    {
      assert str[..i + 1][..i] == str[..i];
      if str[i] == '\n' {
        count := count + 1;
      }
    }
    assert str[..|str|] == str;
  }

  // ---------------------------------------------------------------------
  // a whole stream

  datatype Stepped = Stepped(state: FmtState, pushes: seq<Push>)

  /** A fresh transform given the chunks one after another, each seen through its view. */
  function Run(minLines: nat, insertVersionDirective: bool, chunks: seq<View>): Stepped {
    if |chunks| == 0 then Stepped(FmtState(0, false, false), [])
    else
      var r := Run(minLines, insertVersionDirective, chunks[..|chunks| - 1]);
      var chunk := chunks[|chunks| - 1];
      Stepped(StepState(minLines, r.state, chunk), r.pushes + StepPushes(minLines, insertVersionDirective, r.state, chunk))
  }

  function CountOf(ps: seq<Push>, p: Push): nat {
    if |ps| == 0 then 0 else CountOf(ps[..|ps| - 1], p) + (if ps[|ps| - 1] == p then 1 else 0)
  }

  lemma {:induction false} CountOfAppend(a: seq<Push>, b: seq<Push>, p: Push)
    ensures CountOf(a + b, p) == CountOf(a, p) + CountOf(b, p)
  {
    if |b| > 0 {
      assert (a + b)[..|a + b| - 1] == a + b[..|b| - 1];
      CountOfAppend(a, b[..|b| - 1], p);
    } else {
      assert a + b == a;
    }
  }

  /** The optional pushes of one block are there once each when they happen, and its text is its only text. */
  lemma BlockContents(version: bool, fasta: bool, text: string, mark: bool)
    ensures var b := Block(version, fasta, text, mark);
      CountOf(b, VersionDirective) == (if version then 1 else 0) &&
      CountOf(b, FastaDirective) == (if fasta then 1 else 0) &&
      Texts(b) == [text] &&
      (version ==> b[0] == VersionDirective)
  {
    var v: seq<Push> := if version then [VersionDirective] else [];
    var f: seq<Push> := if fasta then [FastaDirective] else [];
    var t: seq<Push> := [Data(text)];
    var m: seq<Push> := if mark then [SyncMark] else [];
    assert Block(version, fasta, text, mark) == v + f + t + m;
    PiecesCount(v, f, text, m, VersionDirective, FastaDirective);
    PiecesCount(f, v, text, m, FastaDirective, VersionDirective);
    PiecesOf(v, f, t, m, VersionDirective);
    PiecesOf(v, f, t, m, FastaDirective);
    Optional(t, Data(text), VersionDirective);
  }

  /** The count of `p` in a block's four pieces: the first is empty or `[p]`, and the others do not hold `p`. */
  lemma PiecesCount(v: seq<Push>, f: seq<Push>, text: string, m: seq<Push>, p: Push, other: Push)
    requires v == [] || v == [p]
    requires f == [] || f == [other]
    requires m == [] || m == [SyncMark]
    requires p != other && p != Data(text) && p != SyncMark
    ensures CountOf(v, p) + CountOf(f, p) + CountOf([Data(text)], p) + CountOf(m, p) == |v|
  {
    CountOptional(v, p, p);
    CountOptional(f, other, p);
    CountOptional([Data(text)], Data(text), p);
    CountOptional(m, SyncMark, p);
  }

  lemma CountOptional(q: seq<Push>, x: Push, p: Push)
    requires q == [] || q == [x]
    ensures CountOf(q, p) == if q != [] && x == p then 1 else 0
  {
    if q != [] {
      assert q[..0] == [];
    }
  }

  /** Counts and texts of four pieces put together are those of the pieces. */
  lemma PiecesOf(v: seq<Push>, f: seq<Push>, t: seq<Push>, m: seq<Push>, p: Push)
    ensures CountOf(v + f + t + m, p) == CountOf(v, p) + CountOf(f, p) + CountOf(t, p) + CountOf(m, p)
    ensures Texts(v + f + t + m) == Texts(v) + Texts(f) + Texts(t) + Texts(m)
  {
    CountOfAppend(v + f + t, m, p);
    CountOfAppend(v + f, t, p);
    CountOfAppend(v, f, p);
    TextsAppend(v + f + t, m);
    TextsAppend(v + f, t);
    TextsAppend(v, f);
  }

  /** A piece that is empty or the one push `p`: what it counts and what texts it holds. */
  lemma Optional(q: seq<Push>, p: Push, other: Push)
    requires q == [] || q == [p]
    ensures CountOf(q, p) == |q| && CountOf(q, other) == (if q == [] || p != other then 0 else 1)
    ensures Texts(q) == if q != [] && p.Data? then [p.text] else []
  {
    if q != [] {
      assert q[..0] == [];
    }
  }

  /** Data has been emitted exactly when some chunk came through, and then something was pushed. */
  lemma RunEmitted(minLines: nat, insertVersionDirective: bool, chunks: seq<View>)
    ensures var r := Run(minLines, insertVersionDirective, chunks);
      (r.state.haveWeEmittedData <==> |chunks| > 0) && (|chunks| > 0 ==> |r.pushes| > 0)
  {
  }

  /** The version directive is pushed once, in front of everything, exactly when asked for and the first chunk is not itself a `gff-version` directive. */
  lemma {:induction false} RunVersion(minLines: nat, insertVersionDirective: bool, chunks: seq<View>)
    ensures var r := Run(minLines, insertVersionDirective, chunks);
      var wanted := insertVersionDirective && |chunks| > 0 && chunks[0].lead != Some("gff-version");
      CountOf(r.pushes, VersionDirective) == (if wanted then 1 else 0) &&
      (wanted ==> r.pushes[0] == VersionDirective)
  {
    if |chunks| > 0 {
      var front := chunks[..|chunks| - 1];
      var chunk := chunks[|chunks| - 1];
      RunVersion(minLines, insertVersionDirective, front);
      RunEmitted(minLines, insertVersionDirective, front);
      var r0 := Run(minLines, insertVersionDirective, front);
      var before := insertVersionDirective && |front| > 0 && front[0].lead != Some("gff-version");
      var version := NeedsVersion(insertVersionDirective, r0.state, chunk);
      var fasta, mark := chunk.sequence && !r0.state.fastaMode, r0.state.linesSinceLastSyncMark >= minLines;
      assert Run(minLines, insertVersionDirective, chunks).pushes == r0.pushes + Block(version, fasta, chunk.text, mark);
      BlockContents(version, fasta, chunk.text, mark);
      if |front| > 0 {
        assert front[0] == chunks[0];
      } else {
        assert chunk == chunks[0];
      }
      VersionAppend(r0.pushes, Block(version, fasta, chunk.text, mark), before, version);
    }
  }

  lemma VersionAppend(p: seq<Push>, b: seq<Push>, before: bool, version: bool)
    requires CountOf(p, VersionDirective) == (if before then 1 else 0) && (before ==> p[0] == VersionDirective)
    requires CountOf(b, VersionDirective) == (if version then 1 else 0) && (version ==> b[0] == VersionDirective)
    requires version ==> p == []
    ensures CountOf(p + b, VersionDirective) == (if before || version then 1 else 0)
    ensures before || version ==> (p + b)[0] == VersionDirective
  {
    CountOfAppend(p, b, VersionDirective);
    if version {
      assert p + b == b;
    }
  }

  /** The `##FASTA` directive is pushed once exactly when some chunk is a sequence, and FASTA mode is on from then on. */
  lemma {:induction false} RunFasta(minLines: nat, insertVersionDirective: bool, chunks: seq<View>)
    ensures var r := Run(minLines, insertVersionDirective, chunks);
      var anySequence := exists i :: 0 <= i < |chunks| && chunks[i].sequence;
      (r.state.fastaMode <==> anySequence) &&
      CountOf(r.pushes, FastaDirective) == (if anySequence then 1 else 0)
  {
    if |chunks| > 0 {
      var front := chunks[..|chunks| - 1];
      var chunk := chunks[|chunks| - 1];
      RunFasta(minLines, insertVersionDirective, front);
      var r0 := Run(minLines, insertVersionDirective, front);
      var fasta := chunk.sequence && !r0.state.fastaMode;
      var b := Block(NeedsVersion(insertVersionDirective, r0.state, chunk), fasta, chunk.text, r0.state.linesSinceLastSyncMark >= minLines);
      assert Run(minLines, insertVersionDirective, chunks).pushes == r0.pushes + b;
      assert Run(minLines, insertVersionDirective, chunks).state.fastaMode == (r0.state.fastaMode || chunk.sequence);
      CountOfAppend(r0.pushes, b, FastaDirective);
      BlockContents(NeedsVersion(insertVersionDirective, r0.state, chunk), fasta, chunk.text, r0.state.linesSinceLastSyncMark >= minLines);
      AnyAppend(chunks);
    }
  }

  lemma AnyAppend(chunks: seq<View>)
    requires |chunks| > 0
    ensures var front := chunks[..|chunks| - 1];
      (exists i :: 0 <= i < |chunks| && chunks[i].sequence) <==>
      (exists i :: 0 <= i < |front| && front[i].sequence) || chunks[|chunks| - 1].sequence
  {
    var front := chunks[..|chunks| - 1];
    if exists i :: 0 <= i < |chunks| && chunks[i].sequence {
      var i :| 0 <= i < |chunks| && chunks[i].sequence;
      if i < |front| {
        assert front[i] == chunks[i];
      }
    }
    if exists i :: 0 <= i < |front| && front[i].sequence {
      var i :| 0 <= i < |front| && front[i].sequence;
      assert chunks[i] == front[i];
    }
  }

  /** The formatted texts among the pushes. */
  function Texts(ps: seq<Push>): seq<string> {
    if |ps| == 0 then []
    else Texts(ps[..|ps| - 1]) + (if ps[|ps| - 1].Data? then [ps[|ps| - 1].text] else [])
  }

  lemma {:induction false} TextsAppend(a: seq<Push>, b: seq<Push>)
    ensures Texts(a + b) == Texts(a) + Texts(b)
  {
    if |b| > 0 {
      assert (a + b)[..|a + b| - 1] == a + b[..|b| - 1];
      TextsAppend(a, b[..|b| - 1]);
    } else {
      assert a + b == a;
    }
  }

  /** The texts of the views, in order. */
  function TextsOf(views: seq<View>): (r: seq<string>)
    ensures |r| == |views| && forall i :: 0 <= i < |views| ==> r[i] == views[i].text
  {
    if |views| == 0 then [] else TextsOf(views[..|views| - 1]) + [views[|views| - 1].text]
  }

  /** Nothing is lost or reordered: the texts pushed are the texts of the chunks, one per chunk, in order. */
  lemma {:induction false} RunTexts(minLines: nat, insertVersionDirective: bool, chunks: seq<View>)
    ensures Texts(Run(minLines, insertVersionDirective, chunks).pushes) == TextsOf(chunks)
  {
    if |chunks| > 0 {
      var front := chunks[..|chunks| - 1];
      var chunk := chunks[|chunks| - 1];
      RunTexts(minLines, insertVersionDirective, front);
      var r0 := Run(minLines, insertVersionDirective, front);
      var b := Block(NeedsVersion(insertVersionDirective, r0.state, chunk), chunk.sequence && !r0.state.fastaMode,
                     chunk.text, r0.state.linesSinceLastSyncMark >= minLines);
      assert Run(minLines, insertVersionDirective, chunks).pushes == r0.pushes + b;
      TextsAppend(r0.pushes, b);
      BlockContents(NeedsVersion(insertVersionDirective, r0.state, chunk), chunk.sequence && !r0.state.fastaMode,
                    chunk.text, r0.state.linesSinceLastSyncMark >= minLines);
    }
  }

  /** The line breaks of the texts pushed since the last synchronisation mark. */
  function SinceMark(ps: seq<Push>): nat {
    if |ps| == 0 then 0
    else if ps[|ps| - 1] == SyncMark then 0
    else SinceMark(ps[..|ps| - 1]) + (if ps[|ps| - 1].Data? then Count(ps[|ps| - 1].text, '\n') else 0)
  }

  /** Before every synchronisation mark, the texts since the previous one (or the start) hold at least `minLines` line breaks. */
  predicate Spaced(ps: seq<Push>, minLines: nat) {
    |ps| == 0 ||
    (Spaced(ps[..|ps| - 1], minLines) && (ps[|ps| - 1] == SyncMark ==> SinceMark(ps[..|ps| - 1]) >= minLines))
  }

  /** `Spaced` says of every mark, wherever it stands, that enough lines come before it. */
  lemma {:induction false} SpacedMeans(ps: seq<Push>, minLines: nat)
    ensures Spaced(ps, minLines) <==>
      forall k :: 0 <= k < |ps| && ps[k] == SyncMark ==> SinceMark(ps[..k]) >= minLines
  {
    if |ps| > 0 {
      var front := ps[..|ps| - 1];
      SpacedMeans(front, minLines);
      assert forall k :: 0 <= k < |front| ==> front[k] == ps[k] && front[..k] == ps[..k];
    }
  }

  lemma SpacedSnoc(ps: seq<Push>, p: Push, minLines: nat)
    requires Spaced(ps, minLines)
    requires p == SyncMark ==> SinceMark(ps) >= minLines
    ensures Spaced(ps + [p], minLines)
  {
    assert (ps + [p])[..|ps|] == ps;
  }

  lemma SinceMarkSnoc(ps: seq<Push>, p: Push)
    ensures SinceMark(ps + [p]) ==
      if p == SyncMark then 0 else SinceMark(ps) + (if p.Data? then Count(p.text, '\n') else 0)
  {
    assert (ps + [p])[..|ps|] == ps;
  }

  /** One block keeps the counter equal to the line breaks since the last mark, and keeps the marks spaced. */
  lemma BlockSpaced(version: bool, fasta: bool, text: string, ps: seq<Push>, lines: nat, minLines: nat)
    requires lines == SinceMark(ps) && Spaced(ps, minLines)
    ensures var qs := ps + Block(version, fasta, text, lines >= minLines);
      SinceMark(qs) == (if lines >= minLines then 0 else lines + Count(text, '\n')) && Spaced(qs, minLines)
  {
    var v: seq<Push> := if version then [VersionDirective] else [];
    var f: seq<Push> := if fasta then [FastaDirective] else [];
    var m: seq<Push> := if lines >= minLines then [SyncMark] else [];
    AppendQuiet(ps, v, minLines);
    AppendQuiet(ps + v, f, minLines);
    AppendData(ps + v + f, text, minLines);
    AppendMark(ps + v + f + [Data(text)], m, minLines);
    AppendFour(ps, v, f, [Data(text)], m);
  }

  /** Appending no push or one directive changes neither the count nor the spacing. */
  lemma AppendQuiet(ps: seq<Push>, q: seq<Push>, minLines: nat)
    requires Spaced(ps, minLines)
    requires q == [] || q == [VersionDirective] || q == [FastaDirective]
    ensures Spaced(ps + q, minLines) && SinceMark(ps + q) == SinceMark(ps)
  {
    if q == [] {
      assert ps + q == ps;
    } else {
      SinceMarkSnoc(ps, q[0]);
      SpacedSnoc(ps, q[0], minLines);
    }
  }

  /** Appending a text adds its line breaks to the count. */
  lemma AppendData(ps: seq<Push>, text: string, minLines: nat)
    requires Spaced(ps, minLines)
    ensures Spaced(ps + [Data(text)], minLines)
    ensures SinceMark(ps + [Data(text)]) == SinceMark(ps) + Count(text, '\n')
  {
    SinceMarkSnoc(ps, Data(text));
    SpacedSnoc(ps, Data(text), minLines);
  }

  /** Appending a mark after enough lines resets the count and keeps the spacing. */
  lemma AppendMark(ps: seq<Push>, m: seq<Push>, minLines: nat)
    requires Spaced(ps, minLines)
    requires m == [] || (m == [SyncMark] && SinceMark(ps) >= minLines)
    ensures Spaced(ps + m, minLines)
    ensures SinceMark(ps + m) == if m == [] then SinceMark(ps) else 0
  {
    if m == [] {
      assert ps + m == ps;
    } else {
      SinceMarkSnoc(ps, SyncMark);
      SpacedSnoc(ps, SyncMark, minLines);
    }
  }

  lemma AppendFour(a: seq<Push>, b: seq<Push>, c: seq<Push>, d: seq<Push>, e: seq<Push>)
    ensures a + (b + c + d + e) == a + b + c + d + e
  {
  }

  /**
   * Over a whole stream the counter is the number of lines written since the
   * last `###`, and every `###` follows at least `minLines` lines of
   * formatted output.
   */
  lemma {:induction false} RunSpaced(minLines: nat, insertVersionDirective: bool, chunks: seq<View>)
    ensures var r := Run(minLines, insertVersionDirective, chunks);
      r.state.linesSinceLastSyncMark == SinceMark(r.pushes) && Spaced(r.pushes, minLines)
  {
    if |chunks| > 0 {
      var front := chunks[..|chunks| - 1];
      var chunk := chunks[|chunks| - 1];
      RunSpaced(minLines, insertVersionDirective, front);
      var r0 := Run(minLines, insertVersionDirective, front);
      var version := NeedsVersion(insertVersionDirective, r0.state, chunk);
      var fasta := chunk.sequence && !r0.state.fastaMode;
      var text := chunk.text;
      assert Run(minLines, insertVersionDirective, chunks).pushes ==
        r0.pushes + Block(version, fasta, text, r0.state.linesSinceLastSyncMark >= minLines);
      BlockSpaced(version, fasta, text, r0.pushes, r0.state.linesSinceLastSyncMark, minLines);
    }
  }
}
