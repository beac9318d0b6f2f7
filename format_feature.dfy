/**
 * `formatFeature` of `src/util.ts` and `src/util.js`: a feature, with its
 * child and derived features, or an array of them, written as GFF lines.
 * A line already written during the same call is not written again.
 */
module FeatureFormat {
  import opened Wrappers
  import opened JsString
  import opened Escaping
  import opened Dialects
  import opened Attributes
  import opened Items
  import FeatureParse

  // ---------------------------------------------------------------------
  // one line

  /** `translateStrand[val + 1]`: a number -1, 0 or 1 is looked up; a string `s` indexes with `s + "1"`, found only for `""`. */
  function Translated(v: Value): Option<string> {
    match v
    case Num(n) => if -1 <= n <= 1 then Some(["-", ".", "+"][n + 1]) else None
    case Str(s) => if s == "" then Some(".") else None
  }

  /** The strand column: `.` when unset, else the translation or else the value itself, never escaped. */
  function StrandText(v: Option<Value>): string {
    match v
    case None => "."
    case Some(x) => if Translated(x).Some? then Translated(x).value else ValueText(x)
  }

  /** Every other scalar column: `.` when unset, else the escaped text of the value. */
  function ColumnText(v: Option<Value>): string {
    match v
    case None => "."
    case Some(x) => EscapeColumn(ValueText(x))
  }

  function FieldText(d: Dialect, f: Item, i: nat): string
    requires f.Object? && i < 8
  {
    if i == 6 then StrandText(Column(d, f, i)) else ColumnText(Column(d, f, i))
  }

  /** The ninth column: `.` when the feature has no attributes object. */
  function AttrText(f: Item): string
    requires f.Object?
  {
    match f.attributes
    case None => "."
    case Some(m) => FormatAttributes(m)
  }

  /** The nine columns of the line `_formatSingleFeature` writes. */
  function Fields(d: Dialect, f: Item): (r: seq<string>)
    requires f.Object?
    ensures |r| == 9
  {
    seq(8, i requires 0 <= i < 8 => FieldText(d, f, i)) + [AttrText(f)]
  }

  function Row(d: Dialect, f: Item): string
    requires f.Object?
  {
    Join(Fields(d, f), "\t")
  }

  function FeatureLine(d: Dialect, f: Item): string
    requires f.Object?
  {
    Row(d, f) + "\n"
  }

  // ---------------------------------------------------------------------
  // the lines of a feature tree, and the de-duplication

  /** The lines of a feature in the order `_formatFeature` visits them: the feature, its children, its derived features. */
  function Lines(d: Dialect, item: Item): seq<string>
    decreases item, 1
  {
    match item
    case Array(es) => LinesAll(d, es)
    case Object(_, _, _, _, _, _, _, _, _, _, _, _, children, derived, _, _, _, _, _, _, _) =>
      [FeatureLine(d, item)] + LinesAll(d, children) + LinesAll(d, derived)
  }

  function LinesAll(d: Dialect, items: seq<Item>): seq<string>
    decreases items, 0
  {
    if |items| == 0 then [] else LinesAll(d, items[..|items| - 1]) + Lines(d, items[|items| - 1])
  }

  function Elems(xs: seq<string>): set<string> {
    set x | x in xs
  }

  /** The lines in order, each dropped when it was seen before, in `seen` or earlier in the list. */
  function Dedup(xs: seq<string>, seen: set<string>): seq<string> {
    if |xs| == 0 then []
    else (if xs[0] in seen then [] else [xs[0]]) + Dedup(xs[1..], seen + {xs[0]})
  }

  /** What `formatFeature(item)` returns. */
  function FeatureText(d: Dialect, item: Item): string {
    Concat(Dedup(Lines(d, item), {}))
  }

  /** The `seenFeature` object shared by one `formatFeature` call: the lines written so far. */
  class Seen {
    var lines: set<string>

    constructor()
      ensures lines == {}
    {
      lines := {};
    }
  }

  /** `_formatSingleFeature(f, seenFeature)`. */
  method FormatSingleFeature(d: Dialect, f: Item, seen: Seen) returns (s: string)
    requires f.Object?
    modifies seen
    ensures seen.lines == old(seen.lines) + {FeatureLine(d, f)}
    ensures s == if FeatureLine(d, f) in old(seen.lines) then "" else FeatureLine(d, f)
  {
    var attrString := if f.attributes.None? then "." else FormatAttributes(f.attributes.value);
    var fields: seq<string> := [];
    for i := 0 to 8
      invariant |fields| == i
      invariant forall j :: 0 <= j < i ==> fields[j] == FieldText(d, f, j)
    {
      var val := Column(d, f, i);
      if i == 6 {
        fields := fields + [if val.None? then "." else StrandText(val)];
      } else {
        fields := fields + [if val.None? then "." else EscapeColumn(ValueText(val.value))];
      }
    }
    fields := fields + [attrString];
    assert fields == Fields(d, f);
    var formatted := Join(fields, "\t") + "\n";
    if formatted in seen.lines {
      return "";
    }
    seen.lines := seen.lines + {formatted};
    s := formatted;
  }

  /** `_formatFeature(feature, seenFeature)`. */
  method FormatFeatureWalk(d: Dialect, item: Item, seen: Seen) returns (s: string)
    modifies seen
    decreases item, 1
    ensures s == Concat(Dedup(Lines(d, item), old(seen.lines)))
    ensures seen.lines == old(seen.lines) + Elems(Lines(d, item))
  {
    if item.Array? {
      var strings := FormatEach(d, item.elements, seen);
      s := Concat(strings);
      return;
    }
    ghost var seen0 := seen.lines;
    var first := FormatSingleFeature(d, item, seen);
    var strings := [first];
    ghost var done := [FeatureLine(d, item)];
    assert first == Concat(Dedup(done, seen0)) by {
      assert Dedup(done, seen0) == (if done[0] in seen0 then [] else [done[0]]) + Dedup([], seen0 + {done[0]});
      assert Concat([first]) == first by { assert [first][..0] == []; }
    }
    assert Concat(strings) == first by { assert strings[..0] == []; }
    assert seen.lines == seen0 + Elems(done);
    var more := FormatEach(d, item.child_features, seen);
    WalkStep(strings, more, done, LinesAll(d, item.child_features), seen0);
    strings := strings + more;
    done := done + LinesAll(d, item.child_features);
    more := FormatEach(d, item.derived_features, seen);
    WalkStep(strings, more, done, LinesAll(d, item.derived_features), seen0);
    strings := strings + more;
    done := done + LinesAll(d, item.derived_features);
    assert done == Lines(d, item);
    s := Concat(strings);
  }

  /** `items.map(f => _formatFeature(f, seenFeature))`: one string per item, the items taken in order. */
  method FormatEach(d: Dialect, items: seq<Item>, seen: Seen) returns (strings: seq<string>)
    modifies seen
    decreases items, 0
    ensures Concat(strings) == Concat(Dedup(LinesAll(d, items), old(seen.lines)))
    ensures seen.lines == old(seen.lines) + Elems(LinesAll(d, items))
  {
    strings := [];
    for i := 0 to |items|
      invariant Concat(strings) == Concat(Dedup(LinesAll(d, items[..i]), old(seen.lines)))
      invariant seen.lines == old(seen.lines) + Elems(LinesAll(d, items[..i]))
    {
      ghost var before := LinesAll(d, items[..i]);
      ghost var seen1 := seen.lines;
      var one := FormatFeatureWalk(d, items[i], seen);
      assert items[..i + 1][..i] == items[..i];
      assert LinesAll(d, items[..i + 1]) == before + Lines(d, items[i]);
      WalkStep(strings, [one], before, Lines(d, items[i]), old(seen.lines));
      assert Concat([one]) == one by { assert [one][..0] == []; }
      strings := strings + [one];
    }
    assert items[..|items|] == items;
  }

  /** `formatFeature(featureOrFeatures)`: a fresh `seen` object for every call. */
  method FormatFeature(d: Dialect, item: Item) returns (s: string)
    ensures s == FeatureText(d, item)
  {
    var seen := new Seen();
    s := FormatFeatureWalk(d, item, seen);
  }

  // ---------------------------------------------------------------------
  // properties of the de-duplication

  /** One more item formatted: the strings and the lines seen grow together. */
  lemma WalkStep(strings: seq<string>, more: seq<string>, done: seq<string>, next: seq<string>, seen: set<string>)
    requires Concat(strings) == Concat(Dedup(done, seen))
    requires Concat(more) == Concat(Dedup(next, seen + Elems(done)))
    ensures Concat(strings + more) == Concat(Dedup(done + next, seen))
    ensures seen + Elems(done) + Elems(next) == seen + Elems(done + next)
  {
    DedupAppend(done, next, seen);
    ConcatAppend(strings, more);
    ConcatAppend(Dedup(done, seen), Dedup(next, seen + Elems(done)));
    ElemsAppend(done, next);
  }

  lemma ElemsAppend(xs: seq<string>, ys: seq<string>)
    ensures Elems(xs + ys) == Elems(xs) + Elems(ys)
  {
  }

  /** De-duplicating two lists in a row is de-duplicating the first, then the second against all lines seen so far. */
  lemma {:induction false} DedupAppend(xs: seq<string>, ys: seq<string>, seen: set<string>)
    ensures Dedup(xs + ys, seen) == Dedup(xs, seen) + Dedup(ys, seen + Elems(xs))
  {
    if |xs| == 0 {
      assert xs + ys == ys;
      assert seen + Elems(xs) == seen;
    } else {
      var x, rest := xs[0], xs[1..];
      var head := if x in seen then [] else [x];
      assert (xs + ys)[0] == x;
      assert (xs + ys)[1..] == rest + ys;
      assert Dedup(xs + ys, seen) == head + Dedup(rest + ys, seen + {x});
      DedupAppend(rest, ys, seen + {x});
      SeenCons(xs, seen);
      assert Dedup(xs, seen) == head + Dedup(rest, seen + {x});
    }
  }

  lemma SeenCons(xs: seq<string>, seen: set<string>)
    requires |xs| > 0
    ensures seen + {xs[0]} + Elems(xs[1..]) == seen + Elems(xs)
  {
    ElemsCons(xs);
  }

  lemma ElemsCons(xs: seq<string>)
    requires |xs| > 0
    ensures Elems(xs) == {xs[0]} + Elems(xs[1..])
  {
    assert xs == [xs[0]] + xs[1..];
  }

  predicate Distinct(xs: seq<string>) {
    forall i, j :: 0 <= i < j < |xs| ==> xs[i] != xs[j]
  }

  /**
   * The de-duplicated lines are exactly the lines not seen before, each
   * once: no line twice, none of `seen`, and every other line of the list.
   */
  lemma {:induction false} DedupSpec(xs: seq<string>, seen: set<string>)
    ensures Distinct(Dedup(xs, seen))
    ensures Elems(Dedup(xs, seen)) == Elems(xs) - seen
  {
    if |xs| > 0 {
      DedupSpec(xs[1..], seen + {xs[0]});
      var rest := Dedup(xs[1..], seen + {xs[0]});
      assert Elems(xs) == {xs[0]} + Elems(xs[1..]) by {
        assert xs == [xs[0]] + xs[1..];
      }
      if xs[0] !in seen {
        var r := [xs[0]] + rest;
        forall i, j | 0 <= i < j < |r|
          ensures r[i] != r[j]
        {
          if i == 0 {
            assert r[j] == rest[j - 1] && r[j] in Elems(rest);
          } else {
            assert r[i] == rest[i - 1] && r[j] == rest[j - 1];
          }
        }
        assert Elems(r) == {xs[0]} + Elems(rest) by {
          assert forall x :: x in r <==> x == xs[0] || x in rest;
        }
      } else {
        assert Dedup(xs, seen) == rest;
      }
    }
  }

  /** A line is kept at most once, and the first occurrence is the one kept: the order of first occurrences is the list's. */
  lemma {:induction false} DedupFirst(xs: seq<string>, seen: set<string>, k: nat)
    requires k < |xs| && xs[k] !in seen && forall j :: 0 <= j < k ==> xs[j] != xs[k]
    ensures Dedup(xs, seen) == Dedup(xs[..k], seen) + [xs[k]] + Dedup(xs[k + 1..], seen + Elems(xs[..k + 1]))
  {
    assert xs == xs[..k] + xs[k..];
    DedupAppend(xs[..k], xs[k..], seen);
    assert xs[k] !in seen + Elems(xs[..k]) by {
      assert forall x :: x in xs[..k] ==> x != xs[k];
    }
    assert xs[k..][0] == xs[k] && xs[k..][1..] == xs[k + 1..];
    assert seen + Elems(xs[..k]) + {xs[k]} == seen + Elems(xs[..k + 1]) by {
      assert xs[..k + 1] == xs[..k] + [xs[k]];
    }
  }

  /** Formatting the same feature twice in one array writes its lines once. */
  lemma RepeatedFeature(d: Dialect, f: Item)
    requires f.Object? && f.child_features == [] && f.derived_features == []
    ensures FeatureText(d, Array([f, f])) == FeatureText(d, f)
  {
    LeafLines(d, f);
    assert [f, f][..1] == [f];
    assert LinesAll(d, [f, f]) == LinesAll(d, [f]) + Lines(d, f);
    DedupRepeated(FeatureLine(d, f));
  }

  /** A feature without children has its own line only. */
  lemma LeafLines(d: Dialect, f: Item)
    requires f.Object? && f.child_features == [] && f.derived_features == []
    ensures Lines(d, f) == [FeatureLine(d, f)] && LinesAll(d, [f]) == [FeatureLine(d, f)]
  {
    assert LinesAll(d, []) == [];
    assert [f][..0] == [];
  }

  /** A line twice is written once. */
  lemma DedupRepeated(line: string)
    ensures Concat(Dedup([line] + [line], {})) == Concat(Dedup([line], {})) == line
  {
    var xs := [line] + [line];
    assert xs[0] == line && xs[1..] == [line];
    var empty: set<string> := {};
    assert Dedup(xs, empty) == [line] + Dedup([line], empty + {line});
    assert empty + {line} == {line};
    assert Dedup([line], {line}) == [] + Dedup([], {line} + {line});
    assert Dedup([line], empty) == [line] + Dedup([], empty + {line});
    assert Concat([line]) == line by { assert [line][..0] == []; }
  }


  // ---------------------------------------------------------------------
  // the shape of a line, and the round trip through parseFeature

  /** Every column but the strand is free of tabs; the strand is written verbatim and may not be. */
  lemma FieldsTabFree(d: Dialect, f: Item)
    requires f.Object?
    requires '\t' !in StrandText(f.strand)
    ensures forall i :: 0 <= i < 9 ==> '\t' !in Fields(d, f)[i]
  {
    FormatAttributesColumnOpt(f.attributes);
    forall i | 0 <= i < 8 && i != 6
      ensures '\t' !in ColumnText(Column(d, f, i))
    {
      var v := Column(d, f, i);
      if v.Some? {
        EscapeColumnHasNoBreaks(ValueText(v.value));
      }
    }
  }

  lemma FormatAttributesColumnOpt(m: Option<AttrMap>)
    ensures m.Some? ==> '\t' !in FormatAttributes(m.value)
  {
    if m.Some? {
      FormatAttributesColumn(m.value);
    }
  }

  /** A feature line splits on tabs into exactly its nine columns, as long as the strand holds no tab. */
  lemma RowColumns(d: Dialect, f: Item)
    requires f.Object?
    requires '\t' !in StrandText(f.strand)
    ensures Split(Row(d, f), '\t') == Fields(d, f)
  {
    FieldsTabFree(d, f);
    SplitJoin(Fields(d, f), '\t');
  }

  /** A string column `parseFeature` reads back as it was: not `.`, which reads as unset. */
  predicate TextField(v: Option<Value>) {
    v.None? || (v.value.Str? && v.value.text != ".")
  }

  /**
   * 2^53. The source's numbers are doubles: below this every integer is
   * exact, and `String` writes it in plain digits, so `parseInt` reads back
   * the same number.
   */
  const ExactIntegers := 0x20_0000_0000_0000

  /** A start or end column `parseFeature` reads back: a non-negative integer below 2^53, or unset. */
  predicate PositionField(v: Option<Value>) {
    v.None? || (v.value.Num? && 0 <= v.value.n < ExactIntegers)
  }

  /** A score or frame `parseFeature` reads back: written without escapes, so it holds no reserved character. */
  predicate VerbatimField(v: Option<Value>) {
    v.None? || (v.value.Str? && v.value.text != "." && Clean(ColumnChars, v.value.text))
  }

  /** A strand `parseFeature` reads back: not `""` (written as `.`), not `.`, no tab. */
  predicate StrandField(v: Option<Value>) {
    v.None? || (v.value.Str? && v.value.text != "" && v.value.text != "." && '\t' !in v.value.text)
  }

  /** Attributes that parse back in the variant: the `src/util.js` reading keeps one quote-free value per tag. */
  predicate AttributesField(d: Dialect, m: Option<AttrMap>) {
    m.Some? && Formattable(m.value) &&
    (d == JsUtil ==> forall i :: 0 <= i < |m.value| ==> |m.value[i].values| == 1 && '"' !in m.value[i].values[0])
  }

  /** A feature object of the shape `parseFeature` produces, with values that survive formatting. */
  predicate Canonical(d: Dialect, f: Item) {
    f.Object? &&
    TextField(Column(d, f, 0)) && TextField(f.source) && TextField(Column(d, f, 2)) &&
    PositionField(f.start) && PositionField(f.end) &&
    VerbatimField(f.score) && StrandField(f.strand) && VerbatimField(Column(d, f, 7)) &&
    AttributesField(d, f.attributes) &&
    (d == TsUtil ==> f.seq_id.None? && f.type_.None? && f.phase.None?) &&
    (d == JsUtil ==> f.seq_name.None? && f.featureType.None? && f.frame.None?) &&
    f.child_features == [] && f.derived_features == [] &&
    f.directive.None? && f.value.None? && f.buildname.None? && f.id.None? &&
    f.description.None? && f.sequence.None? && f.comment.None?
  }

  /** `parseFeature` of the line `formatFeature` writes for a canonical feature gives that feature back. */
  lemma FormatParseFeature(d: Dialect, f: Item)
    requires Canonical(d, f)
    ensures FeatureParse.Parsable(Row(d, f))
    ensures FeatureParse.FeatureOf(d, Row(d, f)) == Some(f)
  {
    var cols := Fields(d, f);
    RowColumns(d, f);
    PositionColumn(f.start);
    PositionColumn(f.end);
    assert cols[3] == ColumnText(f.start) && cols[4] == ColumnText(f.end);
    FeatureParse.FeatureColumns(d, cols);
    AttributesReadBack(d, f.attributes);
    assert cols[8] == FormatAttributes(f.attributes.value);
    var r := FeatureParse.FeatureOfColumns(d, cols).value;
    forall i | 0 <= i < 8
      ensures Column(d, r, i) == Column(d, f, i)
    {
      ColumnReadsBack(d, f, i);
    }
    SameFeature(d, r, f);
  }

  lemma PositionColumn(v: Option<Value>)
    requires PositionField(v)
    ensures FeatureParse.IntegralColumn(ColumnText(v))
    ensures v.Some? ==> ColumnText(v) == Decimal(v.value.n)
  {
    if v.Some? {
      DigitsClean(Decimal(v.value.n));
      EscapeIdentity(ColumnChars, Decimal(v.value.n));
    }
  }

  lemma DigitsClean(s: string)
    requires IsDigits(s)
    ensures Clean(ColumnChars, s) && s != "."
  {
    assert IsDigit(s[0]);
  }

  /** Column `i` of a canonical feature reads back as it was written. */
  lemma ColumnReadsBack(d: Dialect, f: Item, i: nat)
    requires Canonical(d, f) && i < 8
    ensures FeatureParse.ParsableColumns(Fields(d, f))
    ensures FeatureParse.ExpectedColumn(Fields(d, f), i) == Column(d, f, i)
  {
    var cols := Fields(d, f);
    PositionColumn(f.start);
    PositionColumn(f.end);
    assert cols[3] == ColumnText(f.start) && cols[4] == ColumnText(f.end);
    var v := Column(d, f, i);
    assert cols[i] == FieldText(d, f, i);
    if v.Some? {
      if i < 3 {
        var t := v.value.text;
        UnescapeEscape(ColumnChars, t);
        EscapeIsDot(t);
      } else if i < 5 {
        ParseDecimalOfDecimal(v.value.n);
      } else if i != 6 {
        EscapeIdentity(ColumnChars, v.value.text);
      }
    }
  }

  /** `escapeColumn(s)` is `.` only for `.` itself. */
  lemma EscapeIsDot(s: string)
    ensures EscapeColumn(s) == "." <==> s == "."
  {
    assert UnescapeText(".") == ".";
    UnescapeEscape(ColumnChars, s);
    if s == "." {
      assert EscapeColumn(s) == EscapeChar(ColumnChars, '.') + EscapeWith(ColumnChars, "");
    }
  }

  /** The attributes column of a canonical feature parses, without throwing, as the attributes. */
  lemma AttributesReadBack(d: Dialect, m: Option<AttrMap>)
    requires AttributesField(d, m)
    ensures var text := FormatAttributes(m.value);
      AttributesOf(d, if text == "." then None else Some(text)) == m
  {
    if d == TsUtil {
      FormatParseTs(m.value);
    } else {
      FormatParseJs(m.value);
    }
  }

  /** Two feature objects with the same columns and attributes and nothing else set are equal. */
  lemma SameFeature(d: Dialect, r: Item, f: Item)
    requires Canonical(d, f) && r.Object?
    requires forall i :: 0 <= i < 8 ==> Column(d, r, i) == Column(d, f, i)
    requires r.attributes == f.attributes
    requires d == TsUtil ==> r.seq_id.None? && r.type_.None? && r.phase.None?
    requires d == JsUtil ==> r.seq_name.None? && r.featureType.None? && r.frame.None?
    requires r.child_features == [] && r.derived_features == [] && r.directive.None? && r.value.None?
    requires r.buildname.None? && r.id.None? && r.description.None? && r.sequence.None? && r.comment.None?
    ensures r == f
  {
    assert Column(d, r, 0) == Column(d, f, 0);
    assert Column(d, r, 1) == Column(d, f, 1);
    assert Column(d, r, 2) == Column(d, f, 2);
    assert Column(d, r, 3) == Column(d, f, 3);
    assert Column(d, r, 4) == Column(d, f, 4);
    assert Column(d, r, 5) == Column(d, f, 5);
    assert Column(d, r, 6) == Column(d, f, 6);
    assert Column(d, r, 7) == Column(d, f, 7);
  }
}
