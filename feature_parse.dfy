/**
 * `parseFeature` of `src/util.ts` and `src/util.js`: one tab-separated feature
 * line into an object whose properties are named by the variant's
 * `fieldNames`.
 */
module FeatureParse {
  import opened Wrappers
  import opened JsString
  import opened Escaping
  import opened Dialects
  import opened Attributes
  import opened Items

  /** `line.split('\t').map(a => (a === '.' ? null : a))`, given the split columns. */
  function Cells(cols: seq<string>): seq<Option<string>> {
    seq(|cols|, i requires 0 <= i < |cols| => if cols[i] == "." then None else Some(cols[i]))
  }

  /** `f[i] === '.' ? null : f[i]`: also a column that only unescapes to `.` is `null`. */
  function NullDot(c: Option<string>): Option<string> {
    if c == Some(".") then None else c
  }

  /** A column of digits, or `.`. */
  predicate IntegralColumn(col: string) {
    col == "." || IsDigits(col)
  }

  /** What `parseFeature` handles: at least nine columns, start and end integral. Further columns are ignored. */
  predicate ParsableColumns(cols: seq<string>) {
    |cols| >= 9 && IntegralColumn(cols[3]) && IntegralColumn(cols[4])
  }

  predicate Parsable(line: string) {
    ParsableColumns(Split(line, '\t'))
  }

  function TextValue(c: Option<string>): Option<Value> {
    match c
    case None => None
    case Some(s) => Some(Str(s))
  }

  /** `parseInt(col, 10)` on a column of digits; `.` is `null`. */
  function IntColumn(col: string): Option<Value>
    requires IntegralColumn(col)
  {
    if col == "." then None else Some(Num(ParseDecimal(col)))
  }

  /** `parsed[fieldNames[i]] = fields[i]`, for the eight scalar columns and the attributes. */
  function Record(d: Dialect, fields: seq<Option<string>>, attrs: AttrMap): (r: Item)
    requires |fields| == 8
    ensures r.Object? && r.attributes == Some(attrs)
  {
    match d
    case TsUtil =>
      Object(seq_name := TextValue(fields[0]), source := TextValue(fields[1]), featureType := TextValue(fields[2]),
             start := TextValue(fields[3]), end := TextValue(fields[4]), score := TextValue(fields[5]),
             strand := TextValue(fields[6]), frame := TextValue(fields[7]), attributes := Some(attrs))
    case JsUtil =>
      Object(seq_id := TextValue(fields[0]), source := TextValue(fields[1]), type_ := TextValue(fields[2]),
             start := TextValue(fields[3]), end := TextValue(fields[4]), score := TextValue(fields[5]),
             strand := TextValue(fields[6]), phase := TextValue(fields[7]), attributes := Some(attrs))
  }

  /** The first eight cells after the first three have been unescaped and `.` nulled again. */
  function Fields(cols: seq<string>): seq<Option<string>>
    requires |cols| >= 9
  {
    var f := Cells(cols);
    var u := [Unescape(f[0]), Unescape(f[1]), Unescape(f[2])] + f[3..8];
    seq(8, i requires 0 <= i < 8 => NullDot(u[i]))
  }

  /** The object `parseFeature` returns for a line split into `cols`, or `None` where `parseAttributes` throws. */
  function FeatureOfColumns(d: Dialect, cols: seq<string>): (r: Option<Item>)
    requires ParsableColumns(cols)
    ensures r.Some? ==> r.value.Object? && r.value.attributes.Some?
  {
    match AttributesOf(d, Cells(cols)[8])
    case None => None
    case Some(attrs) => Some(Parsed(d, cols, attrs))
  }

  /** The object `parseFeature` fills once the attributes column is parsed into `attrs`. */
  function Parsed(d: Dialect, cols: seq<string>, attrs: AttrMap): (r: Item)
    requires ParsableColumns(cols)
    ensures r.Object? && r.attributes == Some(attrs)
  {
    var record := Record(d, Fields(cols), attrs);
    record.(start := IntColumn(cols[3]), end := IntColumn(cols[4]))
  }

  /** The object `parseFeature(line)` returns, or `None` where it throws. */
  function FeatureOf(d: Dialect, line: string): (r: Option<Item>)
    requires Parsable(line)
  {
    FeatureOfColumns(d, Split(line, '\t'))
  }

  /** `parseFeature(line)`: the column array is rewritten in place, then the object is filled field by field. */
  method ParseFeature(d: Dialect, line: string) returns (parsed: Option<Item>)
    requires Parsable(line)
    ensures parsed == FeatureOf(d, line)
  {
    var cols := Split(line, '\t');
    parsed := ParseColumns(d, cols);
  }

  /** The work of `parseFeature` once the line is split; `None` is the `TypeError` of `parseAttributes`, which leaves it. */
  method ParseColumns(d: Dialect, cols: seq<string>) returns (result: Option<Item>)
    requires ParsableColumns(cols)
    ensures result == FeatureOfColumns(d, cols)
  {
    var f := Cells(cols);
    f := f[0 := Unescape(f[0])];
    f := f[1 := Unescape(f[1])];
    f := f[2 := Unescape(f[2])];
    assert f[8] == Cells(cols)[8];
    var parsedAttrs := ParseAttributes(d, f[8]);
    if parsedAttrs.None? {
      return None;
    }
    var parsed := FillRecord(d, cols, f, parsedAttrs.value);
    result := Some(parsed);
  }

  /** The field loop of `parseFeature` and the `parseInt` of start and end, once the attributes are parsed. */
  method FillRecord(d: Dialect, cols: seq<string>, f: seq<Option<string>>, attrs: AttrMap) returns (parsed: Item)
    requires ParsableColumns(cols)
    requires f == Cells(cols)[0 := Unescape(Cells(cols)[0])][1 := Unescape(Cells(cols)[1])][2 := Unescape(Cells(cols)[2])]
    ensures parsed == Parsed(d, cols, attrs)
  {
    var fields: seq<Option<string>> := [];
    for i := 0 to 8
      invariant |fields| == i
      invariant forall j :: 0 <= j < i ==> fields[j] == NullDot(f[j])
    {
      fields := fields + [if f[i] == Some(".") then None else f[i]];
    }
    FieldsOfCells(cols, f, fields);
    parsed := Record(d, fields, attrs);
    ghost var record := parsed;
    RecordPositions(d, cols, attrs);
    if parsed.start.Some? {
      parsed := parsed.(start := Some(Num(ParseDecimal(parsed.start.value.text))));
    }
    assert parsed == record.(start := IntColumn(cols[3]));
    if parsed.end.Some? {
      parsed := parsed.(end := Some(Num(ParseDecimal(parsed.end.value.text))));
    }
    assert parsed == record.(start := IntColumn(cols[3]), end := IntColumn(cols[4]));
  }

  /** The start and end the record holds before `parseInt`: the column text, or `null` for `.`. */
  lemma RecordPositions(d: Dialect, cols: seq<string>, attrs: AttrMap)
    requires ParsableColumns(cols)
    ensures Record(d, Fields(cols), attrs).start == if cols[3] == "." then None else Some(Str(cols[3]))
    ensures Record(d, Fields(cols), attrs).end == if cols[4] == "." then None else Some(Str(cols[4]))
  {
    assert Fields(cols)[3] == NullDot(Cells(cols)[3]);
    assert Fields(cols)[4] == NullDot(Cells(cols)[4]);
  }

  /** The cells as `parseColumns` rewrote them, nulled again, are the fields. */
  lemma FieldsOfCells(cols: seq<string>, f: seq<Option<string>>, fields: seq<Option<string>>)
    requires |cols| >= 9
    requires f == Cells(cols)[0 := Unescape(Cells(cols)[0])][1 := Unescape(Cells(cols)[1])][2 := Unescape(Cells(cols)[2])]
    requires |fields| == 8 && forall j :: 0 <= j < 8 ==> fields[j] == NullDot(f[j])
    ensures fields == Fields(cols)
  {
  }

  /** What column `i` of the line becomes. */
  function ExpectedColumn(cols: seq<string>, i: nat): Option<Value>
    requires ParsableColumns(cols) && i < 8
  {
    var col := cols[i];
    if col == "." then None
    else if i < 3 then (if UnescapeText(col) == "." then None else Some(Str(UnescapeText(col))))
    else if i < 5 then Some(Num(ParseDecimal(col)))
    else Some(Str(col))
  }

  /**
   * Column by column, what `parseFeature` stores under the variant's field
   * names: `.` is `null`; the first three columns are unescaped, and one that
   * unescapes to `.` is `null` too; start and end are base-10 integers; score,
   * strand and frame are kept as their text; the ninth column is parsed by
   * `parseAttributes`, and where that throws `parseFeature` throws too. The
   * other variant's field names stay unset, and so do the properties of
   * directives, sequences and comments.
   */
  lemma FeatureColumns(d: Dialect, cols: seq<string>)
    requires ParsableColumns(cols)
    ensures var attrs := AttributesOf(d, if cols[8] == "." then None else Some(cols[8]));
      FeatureOfColumns(d, cols).None? <==> attrs.None?
    ensures FeatureOfColumns(d, cols).Some? ==>
      var r := FeatureOfColumns(d, cols).value;
      (forall i :: 0 <= i < 8 ==> Column(d, r, i) == ExpectedColumn(cols, i)) &&
      r.attributes == AttributesOf(d, if cols[8] == "." then None else Some(cols[8])) &&
      (d == TsUtil ==> r.seq_id.None? && r.type_.None? && r.phase.None?) &&
      (d == JsUtil ==> r.seq_name.None? && r.featureType.None? && r.frame.None?) &&
      r.child_features == [] && r.derived_features == [] && r.directive.None? && r.value.None? &&
      r.buildname.None? && r.id.None? && r.description.None? && r.sequence.None? && r.comment.None?
  {
    assert Cells(cols)[8] == if cols[8] == "." then None else Some(cols[8]);
    if FeatureOfColumns(d, cols).Some? {
      ParsedColumns(d, cols, FeatureOfColumns(d, cols).value.attributes.value);
    }
  }

  /** Column by column, the object filled from `cols` holds what `ExpectedColumn` says. */
  lemma ParsedColumns(d: Dialect, cols: seq<string>, attrs: AttrMap)
    requires ParsableColumns(cols)
    ensures forall i :: 0 <= i < 8 ==> Column(d, Parsed(d, cols, attrs), i) == ExpectedColumn(cols, i)
  {
    var r := Parsed(d, cols, attrs);
    forall i | 0 <= i < 8
      ensures Column(d, r, i) == ExpectedColumn(cols, i)
    {
      var f := Cells(cols);
      assert f[i] == if cols[i] == "." then None else Some(cols[i]);
      if i >= 3 {
        assert Fields(cols)[i] == NullDot(f[i]);
      }
    }
  }
}
