/**
 * `formatItem` of `src/util.ts` (and the single-item branch of the one in
 * `src/util.js`): a feature, directive, sequence or comment is written by the
 * formatter for its kind, chosen in that order; an array of items gives one
 * string per item.
 */
module ItemFormat {
  import opened Wrappers
  import opened JsString
  import opened Dialects
  import opened Items
  import opened Directives
  import opened FeatureFormat
  import FeatureParse

  /** What `formatSingleItem` writes for an item it does not recognise. */
  const InvalidItem := "# (invalid item found during format)\n"

  /** `item[0] || item.attributes`: a non-empty array, or an object with an attributes object. */
  predicate FeatureLike(item: Item) {
    (item.Array? && |item.elements| > 0) || (item.Object? && item.attributes.Some?)
  }

  /** `formatSingleItem(item)`. */
  function FormatSingleItem(d: Dialect, item: Item): string {
    if FeatureLike(item) then FeatureText(d, item)
    else if item.Object? && Truthy(item.directive) then FormatDirective(item)
    else if item.Object? && Truthy(item.sequence) then FormatSequence(item)
    else if item.Object? && Truthy(item.comment) then FormatComment(item)
    else InvalidItem
  }

  /** A JavaScript value `formatItem` returns: a string, or an array of strings. */
  datatype Formatted = Text(text: string) | Texts(texts: seq<string>)

  /** `formatItem(itemOrItems)` of `src/util.ts`. */
  function FormatItem(item: Item): (r: Formatted)
    ensures item.Array? <==> r.Texts?
    ensures item.Array? ==> |r.texts| == |item.elements|
    ensures item.Array? ==> forall i :: 0 <= i < |item.elements| ==> r.texts[i] == FormatSingleItem(TsUtil, item.elements[i])
    ensures item.Object? ==> r == Text(FormatSingleItem(TsUtil, item))
  {
    match item
    case Array(es) => Texts(seq(|es|, i requires 0 <= i < |es| => FormatSingleItem(TsUtil, es[i])))
    case Object(_, _, _, _, _, _, _, _, _, _, _, _, _, _, _, _, _, _, _, _, _) => Text(FormatSingleItem(TsUtil, item))
  }

  /** The string a returned value becomes where JavaScript concatenates it: an array is joined with commas. */
  function Coerce(f: Formatted): string {
    match f
    case Text(s) => s
    case Texts(ss) => Join(ss, ",")
  }

  /** An array of one object is written as that object alone. */
  lemma SingletonArrayItem(x: Item)
    requires x.Object?
    ensures Coerce(FormatItem(Array([x]))) == Coerce(FormatItem(x))
  {
    assert FormatItem(Array([x])).texts == [FormatSingleItem(TsUtil, x)];
  }

  /**
   * Where an array's strings are concatenated, as `formatSync` does with
   * `join('')`, JavaScript writes a comma between the strings of its items.
   */
  lemma ArrayItemCommas(x: Item, y: Item)
    ensures Coerce(FormatItem(Array([x, y]))) == FormatSingleItem(TsUtil, x) + "," + FormatSingleItem(TsUtil, y)
  {
    var ts := FormatItem(Array([x, y])).texts;
    assert ts == [FormatSingleItem(TsUtil, x), FormatSingleItem(TsUtil, y)];
    assert ts[..1] == [ts[0]];
    assert Join(ts, ",") == Join(ts[..1], ",") + "," + ts[1];
  }

  /** A canonical feature is written as its one line, which `parseFeature` reads back as that feature. */
  lemma FeatureItemRoundTrip(d: Dialect, f: Item)
    requires Canonical(d, f)
    ensures FormatSingleItem(d, f) == Row(d, f) + "\n"
    ensures FeatureParse.Parsable(Row(d, f))
    ensures FeatureParse.FeatureOf(d, Row(d, f)) == Some(f)
  {
    var line := FeatureLine(d, f);
    assert LinesAll(d, []) == [];
    assert Lines(d, f) == [line];
    var empty: set<string> := {};
    assert Dedup([line], empty) == [line] + Dedup([], empty + {line});
    assert Concat([line]) == line by { assert [line][..0] == []; }
    FormatParseFeature(d, f);
  }

  /** A directive object is written as a line `parseDirective` reads back with its name and truthy value. */
  lemma DirectiveItemRoundTrip(d: Dialect, item: Item)
    requires item.Object? && item.attributes.None? && item.directive.Some?
    requires PlainDirective(item.directive.value, item.value)
    ensures FormatSingleItem(d, item) == FormatDirective(item)
    ensures ParseDirective(FormatSingleItem(d, item)).Some?
    ensures ParseDirective(FormatSingleItem(d, item)).value.directive == item.directive
    ensures ParseDirective(FormatSingleItem(d, item)).value.value == if Truthy(item.value) then item.value else None
  {
    assert !FeatureLike(item);
    assert FormatSingleItem(d, item) == FormatDirective(item);
    DirectiveRoundTrip(item);
  }

  /** A sequence object that is no feature or directive is written as its two FASTA lines. */
  lemma SequenceItemLines(d: Dialect, item: Item)
    requires item.Object? && item.attributes.None? && !Truthy(item.directive) && Truthy(item.sequence)
    requires item.id.Some? && '\n' !in item.id.value && '\r' !in item.id.value
    requires '\n' !in item.sequence.value && '\r' !in item.sequence.value
    requires item.description.Some? ==> '\n' !in item.description.value && '\r' !in item.description.value
    ensures SplitLines(FormatSingleItem(d, item)) ==
      [">" + item.id.value + (if Truthy(item.description) then " " + item.description.value else ""),
       item.sequence.value, ""]
  {
    SequenceLines(item);
  }

  /** A comment object (nothing else set that takes precedence) is written as one line that is never read as a directive. */
  lemma CommentItemLine(d: Dialect, item: Item)
    requires item.Object? && item.attributes.None? && !Truthy(item.directive) && !Truthy(item.sequence)
    requires Truthy(item.comment) && '\n' !in item.comment.value && '\r' !in item.comment.value
    ensures SplitLines(FormatSingleItem(d, item)) == ["# " + item.comment.value, ""]
    ensures ParseDirective(FormatSingleItem(d, item)) == None
  {
    CommentLines(item);
    CommentIsNoDirective(item);
  }

  /**
   * The invalid-item line is written for empty arrays and for objects that
   * are none of the four kinds, and never for a directive or a sequence (a
   * comment whose text is that of the line itself cannot be told apart).
   */
  lemma InvalidItemCases(d: Dialect, item: Item)
    ensures !FeatureLike(item) && !(item.Object? && (Truthy(item.directive) || Truthy(item.sequence) || Truthy(item.comment)))
      ==> FormatSingleItem(d, item) == InvalidItem
    ensures item.Object? && !FeatureLike(item) && (Truthy(item.directive) || Truthy(item.sequence))
      ==> FormatSingleItem(d, item) != InvalidItem
  {
    if item.Object? && !FeatureLike(item) {
      if Truthy(item.directive) {
        assert FormatSingleItem(d, item)[1] == '#' != InvalidItem[1];
      } else if Truthy(item.sequence) {
        assert FormatSingleItem(d, item)[0] == '>' != InvalidItem[0];
      }
    }
  }
}
