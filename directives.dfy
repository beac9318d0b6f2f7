/**
 * Directive, comment and sequence items of `src/util.ts` and `src/util.js`:
 * `parseDirective`, `formatDirective`, `formatComment` and `formatSequence`
 * (the two variants agree on all four).
 */
module Directives {
  import opened Wrappers
  import opened JsString
  import opened Items

  // ---------------------------------------------------------------------
  // the regular expression /^\s*##\s*(\S+)\s*(.*)/

  /** `\S*` taken greedily: the longest prefix without white space. */
  function NonSpaceRun(s: string): (r: string)
    ensures |r| <= |s| && r == s[..|r|] && NoSpace(r)
    ensures |r| < |s| ==> IsSpace(s[|r|])
  {
    if s == [] || IsSpace(s[0]) then "" else [s[0]] + NonSpaceRun(s[1..])
  }

  /** `.*` taken greedily: the longest prefix without a line terminator. */
  function UpToLineEnd(s: string): (r: string)
    ensures |r| <= |s| && r == s[..|r|]
    ensures forall i :: 0 <= i < |r| ==> !IsLineTerminator(r[i])
    ensures |r| < |s| ==> IsLineTerminator(s[|r|])
  {
    if s == [] || IsLineTerminator(s[0]) then "" else [s[0]] + UpToLineEnd(s[1..])
  }

  /** The two groups of the match, the directive name and the rest, if the line matches. */
  datatype Match = Match(name: string, contents: string)

  /** What follows `\s*##\s*`, if the line starts that way. */
  function AfterMarker(line: string): Option<string> {
    var a := TrimStart(line);
    if |a| < 2 || a[..2] != "##" then None else Some(TrimStart(a[2..]))
  }

  /** `(\S+)\s*(.*)` at the start of `b`. */
  function MatchName(b: string): Option<Match> {
    var name := NonSpaceRun(b);
    if name == "" then None else Some(Match(name, UpToLineEnd(TrimStart(b[|name|..]))))
  }

  function MatchDirective(line: string): Option<Match> {
    match AfterMarker(line)
    case None => None
    case Some(b) => MatchName(b)
  }

  // ---------------------------------------------------------------------
  // parseDirective

  /** The directive object before the fields particular to some directives are added. */
  function Base(m: Match): (r: Item)
    ensures r.Object?
  {
    Object(directive := Some(m.name), value := if |m.contents| > 0 then Some(StripLineEnd(m.contents)) else None)
  }

  /** The fields `sequence-region` and `genome-build` add; every other property is kept. */
  function Extend(name: string, contents: string, parsed: Item): (r: Item)
    requires parsed.Object?
    ensures r.Object? && r.directive == parsed.directive && r.value == parsed.value
  {
    if name == "sequence-region" then
      var c := SplitSpacesLimit(contents, 3);
      parsed.(seq_id := Some(Str(c[0])),
              start := if |c| > 1 then Some(Str(DigitsOnly(c[1]))) else None,
              end := if |c| > 2 then Some(Str(DigitsOnly(c[2]))) else None)
    else if name == "genome-build" then
      var c := SplitSpacesLimit(contents, 2);
      parsed.(source := Some(Str(c[0])), buildname := if |c| > 1 then Some(c[1]) else None)
    else parsed
  }

  /** The object `parseDirective` builds from a match. */
  function DirectiveOf(m: Match): Item {
    var contents := if |m.contents| > 0 then StripLineEnd(m.contents) else m.contents;
    Extend(m.name, contents, Base(m))
  }

  /** `parseDirective(line)`: `null` for a line that does not match, else the directive object. */
  function ParseDirective(line: string): Option<Item> {
    match MatchDirective(line)
    case None => None
    case Some(m) => Some(DirectiveOf(m))
  }

  // ---------------------------------------------------------------------
  // formatting

  /** `formatDirective(d)`: `##name`, then a blank and the value when the value is truthy, then a line break. */
  function FormatDirective(d: Item): string
    requires d.Object?
  {
    "##" + OrUndefined(d.directive) + (if Truthy(d.value) then " " + d.value.value else "") + "\n"
  }

  /** `formatComment(c)`. */
  function FormatComment(c: Item): string
    requires c.Object?
  {
    "# " + OrUndefined(c.comment) + "\n"
  }

  /** `formatSequence(s)`: a FASTA header line with the description only when truthy, then the sequence line. */
  function FormatSequence(s: Item): string
    requires s.Object?
  {
    ">" + OrUndefined(s.id) + (if Truthy(s.description) then " " + s.description.value else "") + "\n" +
    OrUndefined(s.sequence) + "\n"
  }

  // ---------------------------------------------------------------------
  // properties

  predicate NoLineTerminator(s: string) {
    forall i :: 0 <= i < |s| ==> !IsLineTerminator(s[i])
  }

  lemma NoLineTerminatorJoin(x: string, y: string)
    requires NoLineTerminator(x) && NoLineTerminator(y)
    ensures NoLineTerminator(x + y)
  {
    forall i | 0 <= i < |x + y|
      ensures !IsLineTerminator((x + y)[i])
    {
      if i >= |x| {
        assert (x + y)[i] == y[i - |x|];
      }
    }
  }

  lemma NoSpaceJoin(x: string, y: string)
    requires NoSpace(x) && NoSpace(y)
    ensures NoSpace(x + y)
  {
    forall i | 0 <= i < |x + y|
      ensures !IsSpace((x + y)[i])
    {
      if i >= |x| {
        assert (x + y)[i] == y[i - |x|];
      }
    }
  }

  /** The two groups of every match: a non-empty name without white space; contents without a line break that do not start with white space. */
  lemma MatchShape(line: string)
    ensures MatchDirective(line).Some? ==>
      var m := MatchDirective(line).value;
      m.name != "" && NoSpace(m.name) && NoLineTerminator(m.contents) &&
      (m.contents != "" ==> !IsSpace(m.contents[0]))
  {
    var b := AfterMarker(line);
    if b.Some? && MatchName(b.value).Some? {
      var name := NonSpaceRun(b.value);
      var t := TrimStart(b.value[|name|..]);
      var c := UpToLineEnd(t);
      if c != "" {
        assert c[0] == t[0];
      }
    }
  }

  lemma StripLineEndNoBreak(s: string)
    requires s != [] && NoLineTerminator(s)
    ensures StripLineEnd(s) == s
  {
    assert !IsLineTerminator(s[|s| - 1]);
  }

  predicate AllDigits(v: Option<Value>) {
    v.Some? ==> v.value.Str? && forall i :: 0 <= i < |v.value.text| ==> IsDigit(v.value.text[i])
  }

  /**
   * Whatever the line, a parsed directive has a non-empty name without white
   * space; a value only when something followed the name, never starting with
   * white space and never holding a line break; and, for `sequence-region`,
   * start and end made of digits only.
   */
  lemma ParsedDirectiveShape(line: string)
    ensures ParseDirective(line).Some? ==>
      var p := ParseDirective(line).value;
      p.Object? && p.directive.Some? && p.directive.value != "" && NoSpace(p.directive.value) &&
      (p.value.Some? ==> p.value.value != "" && !IsSpace(p.value.value[0]) && NoLineTerminator(p.value.value)) &&
      (p.directive.value == "sequence-region" ==> AllDigits(p.start) && AllDigits(p.end))
  {
    MatchShape(line);
    var m := MatchDirective(line);
    if m.Some? {
      var c := m.value.contents;
      if c != "" {
        StripLineEndNoBreak(c);
      }
      var contents := if |c| > 0 then StripLineEnd(c) else c;
      assert DirectiveOf(m.value) == Extend(m.value.name, contents, Base(m.value));
      ExtendRegionDigits(m.value.name, contents, Base(m.value));
    }
  }

  lemma ExtendRegionDigits(name: string, contents: string, parsed: Item)
    requires parsed.Object? && parsed.start.None? && parsed.end.None?
    ensures name == "sequence-region" ==>
      AllDigits(Extend(name, contents, parsed).start) && AllDigits(Extend(name, contents, parsed).end)
  {
  }

  /** `formatComment` never writes a line that `parseDirective` takes for a directive. */
  lemma CommentIsNoDirective(c: Item)
    requires c.Object?
    ensures ParseDirective(FormatComment(c)) == None
  {
    var line := FormatComment(c);
    assert line[0] == '#' && line[1] == ' ';
    assert TrimStart(line) == line;
    assert line[..2] != "##";
  }

  /** A directive name and value `parseDirective` reads back exactly as they were formatted. */
  predicate PlainDirective(name: string, value: Option<string>) {
    name != "" && NoSpace(name) &&
    (Truthy(value) ==> !IsSpace(value.value[0]) && NoLineTerminator(value.value))
  }

  /** The text after the name that `formatDirective` writes: a blank and the value, or nothing; then the line break. */
  function Tail(v: string): string {
    (if v != "" then " " + v else "") + "\n"
  }

  /**
   * `parseDirective(formatDirective(d))` gives back the name, and the value
   * when it was truthy (an empty value is not written and comes back absent).
   */
  lemma DirectiveRoundTrip(d: Item)
    requires d.Object? && d.directive.Some? && PlainDirective(d.directive.value, d.value)
    ensures ParseDirective(FormatDirective(d)).Some?
    ensures ParseDirective(FormatDirective(d)).value.directive == d.directive
    ensures ParseDirective(FormatDirective(d)).value.value == if Truthy(d.value) then d.value else None
  {
    var name := d.directive.value;
    var v := if Truthy(d.value) then d.value.value else "";
    assert FormatDirective(d) == "##" + (name + Tail(v));
    MatchFormatted(name, v);
    if v != "" {
      StripLineEndNoBreak(v);
    }
  }

  lemma MatchFormatted(name: string, v: string)
    requires name != "" && NoSpace(name)
    requires v == "" || (!IsSpace(v[0]) && NoLineTerminator(v))
    ensures MatchDirective("##" + (name + Tail(v))) == Some(Match(name, v))
  {
    AfterMarkerFormatted(name + Tail(v));
    MatchNameFormatted(name, v);
  }

  lemma AfterMarkerFormatted(rest: string)
    requires rest != [] && !IsSpace(rest[0])
    ensures AfterMarker("##" + rest) == Some(rest)
  {
    var line := "##" + rest;
    assert TrimStart(line) == line;
    assert line[..2] == "##";
    assert line[2..] == rest;
  }

  lemma MatchNameFormatted(name: string, v: string)
    requires name != "" && NoSpace(name)
    requires v == "" || (!IsSpace(v[0]) && NoLineTerminator(v))
    ensures MatchName(name + Tail(v)) == Some(Match(name, v))
  {
    var tail := Tail(v);
    NonSpaceRunPrefix(name, tail);
    assert (name + tail)[|name|..] == tail;
    if v == "" {
      assert tail == "\n";
      assert TrimStart(tail) == "";
    } else {
      assert tail == [' '] + (v + "\n");
      assert TrimStart(v + "\n") == v + "\n";
      assert TrimStart(tail) == v + "\n";
      UpToLineEndPrefix(v);
    }
  }

  lemma {:induction false} NonSpaceRunPrefix(name: string, tail: string)
    requires NoSpace(name) && tail != [] && IsSpace(tail[0])
    ensures NonSpaceRun(name + tail) == name
  {
    if name == [] {
      assert name + tail == tail;
    } else {
      assert (name + tail)[1..] == name[1..] + tail;
      NonSpaceRunPrefix(name[1..], tail);
      assert [name[0]] + name[1..] == name;
    }
  }

  lemma {:induction false} UpToLineEndPrefix(v: string)
    requires NoLineTerminator(v)
    ensures UpToLineEnd(v + "\n") == v
  {
    if v == [] {
      assert v + "\n" == "\n";
    } else {
      assert (v + "\n")[1..] == v[1..] + "\n";
      UpToLineEndPrefix(v[1..]);
      assert [v[0]] + v[1..] == v;
    }
  }

  /** A word, one blank and a rest that starts without white space split as the word followed by the rest's pieces. */
  lemma {:induction false} SplitSpacesWord(w: string, rest: string)
    requires w != "" && NoSpace(w) && rest != [] && !IsSpace(rest[0])
    ensures SplitSpaces(w + " " + rest) == [w] + SplitSpaces(rest)
  {
    var s := w + " " + rest;
    if |w| == 1 {
      SplitSpacesOneChar(w, rest);
    } else {
      assert s[1..] == w[1..] + " " + rest;
      SplitSpacesWord(w[1..], rest);
      var r := SplitSpaces(s[1..]);
      assert r[0] == w[1..] && r[1..] == SplitSpaces(rest);
      assert [w[0]] + w[1..] == w;
    }
  }

  lemma SplitSpacesOneChar(w: string, rest: string)
    requires |w| == 1 && !IsSpace(w[0]) && rest != [] && !IsSpace(rest[0])
    ensures SplitSpaces(w + " " + rest) == [w] + SplitSpaces(rest)
  {
    var s := w + " " + rest;
    assert s[1..] == " " + rest;
    assert (" " + rest)[1..] == rest;
    assert TrimStart(rest) == rest;
    assert SplitSpaces(" " + rest) == [""] + SplitSpaces(rest);
    assert SplitSpaces(s) == [[w[0]] + ""] + SplitSpaces(rest);
    assert [w[0]] + "" == w;
  }

  /** The value of a `sequence-region` directive: the sequence name and two decimal positions. */
  function RegionValue(id: string, start: nat, end: nat): string {
    id + " " + (Decimal(start) + " " + Decimal(end))
  }

  lemma RegionValueShape(id: string, start: nat, end: nat)
    requires id != "" && NoSpace(id) && NoLineTerminator(id)
    ensures var v := RegionValue(id, start, end);
      v != "" && NoLineTerminator(v) && !IsSpace(v[0]) && SplitSpaces(v) == [id, Decimal(start), Decimal(end)]
  {
    var b, c := Decimal(start), Decimal(end);
    DigitsWord(b);
    DigitsWord(c);
    var tail := b + " " + c;
    assert NoLineTerminator(" ");
    NoLineTerminatorJoin(" ", c);
    NoLineTerminatorJoin(b, " " + c);
    assert tail == b + (" " + c);
    NoLineTerminatorJoin(" ", tail);
    NoLineTerminatorJoin(id, " " + tail);
    assert RegionValue(id, start, end) == id + (" " + tail);
    SplitSpacesNoSpace(c);
    SplitSpacesWord(b, c);
    SplitSpacesWord(id, tail);
  }

  /** A decimal numeral is one word on one line. */
  lemma DigitsWord(s: string)
    requires IsDigits(s)
    ensures s != "" && NoSpace(s) && NoLineTerminator(s) && !IsSpace(s[0])
  {
  }


  /**
   * A `sequence-region` directive written as `##sequence-region id start end`
   * reads back with `seq_id`, `start` and `end` as strings.
   */
  lemma SequenceRegionRoundTrip(id: string, start: nat, end: nat)
    requires id != "" && NoSpace(id) && NoLineTerminator(id)
    ensures var p := ParseDirective(FormatDirective(Object(directive := Some("sequence-region"),
                                                           value := Some(RegionValue(id, start, end)))));
      p.Some? && p.value.seq_id == Some(Str(id)) &&
      p.value.start == Some(Str(Decimal(start))) && p.value.end == Some(Str(Decimal(end)))
  {
    var value := RegionValue(id, start, end);
    RegionValueShape(id, start, end);
    KnownNames();
    assert FormatDirective(Object(directive := Some("sequence-region"), value := Some(value))) ==
      "##" + ("sequence-region" + Tail(value));
    MatchFormatted("sequence-region", value);
    StripLineEndNoBreak(value);
  }

  /**
   * A `genome-build` directive written as `##genome-build source name`
   * reads back with `source` and `buildname`.
   */
  lemma GenomeBuildRoundTrip(source: string, name: string)
    requires source != "" && NoSpace(source) && NoLineTerminator(source)
    requires name != "" && NoSpace(name) && NoLineTerminator(name)
    ensures var p := ParseDirective(FormatDirective(Object(directive := Some("genome-build"),
                                                           value := Some(source + " " + name))));
      p.Some? && p.value.source == Some(Str(source)) && p.value.buildname == Some(name)
  {
    var value := source + " " + name;
    BuildValueShape(source, name);
    assert FormatDirective(Object(directive := Some("genome-build"), value := Some(value))) ==
      "##" + ("genome-build" + Tail(value));
    KnownNames();
    MatchFormatted("genome-build", value);
    StripLineEndNoBreak(value);
    ExtendBuild(value, Base(Match("genome-build", value)));
  }

  lemma ExtendBuild(contents: string, parsed: Item)
    requires parsed.Object? && |SplitSpaces(contents)| == 2
    ensures Extend("genome-build", contents, parsed).source == Some(Str(SplitSpaces(contents)[0]))
    ensures Extend("genome-build", contents, parsed).buildname == Some(SplitSpaces(contents)[1])
  {
    assert "genome-build" != "sequence-region";
  }

  lemma KnownNames()
    ensures NoSpace("sequence-region") && NoSpace("genome-build")
  {
  }

  lemma BuildValueShape(source: string, name: string)
    requires source != "" && NoSpace(source) && NoLineTerminator(source)
    requires name != "" && NoSpace(name) && NoLineTerminator(name)
    ensures var v := source + " " + name;
      v != "" && NoLineTerminator(v) && !IsSpace(v[0]) && SplitSpaces(v) == [source, name]
  {
    var value := source + " " + name;
    NoLineTerminatorJoin(source, " " + name);
    assert value == source + (" " + name);
    assert value[0] == source[0];
    SplitSpacesWord(source, name);
    SplitSpacesNoSpace(name);
  }

  /**
   * The text `formatSequence` writes is two lines: the header `>id` with the
   * description when truthy, then the sequence.
   */
  lemma SequenceLines(s: Item)
    requires s.Object? && s.id.Some? && s.sequence.Some?
    requires '\n' !in s.id.value && '\r' !in s.id.value && '\n' !in s.sequence.value && '\r' !in s.sequence.value
    requires s.description.Some? ==> '\n' !in s.description.value && '\r' !in s.description.value
    ensures SplitLines(FormatSequence(s)) ==
      [">" + s.id.value + (if Truthy(s.description) then " " + s.description.value else ""), s.sequence.value, ""]
  {
    var header := ">" + s.id.value + (if Truthy(s.description) then " " + s.description.value else "");
    var body := s.sequence.value;
    assert FormatSequence(s) == header + ("\n" + (body + "\n"));
    assert '\n' !in header && '\r' !in header;
    TwoLines(header, body);
  }

  lemma TwoLines(x: string, y: string)
    requires '\n' !in x && '\r' !in x && '\n' !in y && '\r' !in y
    ensures SplitLines(x + ("\n" + (y + "\n"))) == [x, y, ""]
  {
    OneLine(y);
    SplitLinesBreak("\n" + (y + "\n"), 1);
    assert ("\n" + (y + "\n"))[1..] == y + "\n";
    NoBreakPrefix(x, "\n" + (y + "\n"));
    assert x + "" == x;
  }

  lemma OneLine(x: string)
    requires '\n' !in x && '\r' !in x
    ensures SplitLines(x + "\n") == [x, ""]
  {
    SplitLinesBreak("\n", 1);
    assert "\n"[1..] == "";
    NoBreakPrefix(x, "\n");
    assert x + "" == x;
  }

  /** Text without a line break only extends the first line of what follows. */
  lemma {:induction false} NoBreakPrefix(x: string, t: string)
    requires '\n' !in x && '\r' !in x
    ensures SplitLines(x + t) == [x + SplitLines(t)[0]] + SplitLines(t)[1..]
  {
    if x == [] {
      assert x + t == t;
      assert x + SplitLines(t)[0] == SplitLines(t)[0];
    } else {
      assert '\n' !in x[1..] && '\r' !in x[1..];
      NoBreakPrefix(x[1..], t);
      SplitLinesChar(x + t);
      assert (x + t)[1..] == x[1..] + t;
      assert [x[0]] + (x[1..] + SplitLines(t)[0]) == x + SplitLines(t)[0];
    }
  }

  /** `formatComment` writes one line: `# ` and the comment. */
  lemma CommentLines(c: Item)
    requires c.Object? && c.comment.Some? && '\n' !in c.comment.value && '\r' !in c.comment.value
    ensures SplitLines(FormatComment(c)) == ["# " + c.comment.value, ""]
  {
    OneLine("# " + c.comment.value);
  }
}
