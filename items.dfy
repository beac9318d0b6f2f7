/**
 * The JavaScript values the codec passes around: parsed features, directives,
 * comments and sequences are plain objects, a multi-line feature is an array
 * of such objects, and `child_features`/`derived_features` hold arrays of
 * features in turn. `null` and `undefined` properties are both `None`: the
 * formatter's tests (`=== null || === undefined`, `!= null`, truthiness) treat
 * them alike, but a template literal prints `null` for the one and
 * `undefined` for the other, and the model prints `undefined` for both. An
 * absent `child_features` or `derived_features` is the empty array, which the
 * formatter treats alike.
 */
module Items {
  import opened Wrappers
  import opened JsString
  import opened Attributes
  import opened Dialects

  /** A scalar property: a string or an integral number. */
  datatype Value = Str(text: string) | Num(n: int)

  /** `String(v)`. */
  function ValueText(v: Value): string {
    match v
    case Str(s) => s
    case Num(n) => IntToString(n)
  }

  /**
   * A JavaScript array of items, or a plain object with the properties the
   * codec reads or writes. The property `type` of `src/util.js` is `type_` here.
   */
  datatype Item =
    | Array(elements: seq<Item>)
    | Object(
        seq_name: Option<Value> := None,
        seq_id: Option<Value> := None,
        source: Option<Value> := None,
        featureType: Option<Value> := None,
        type_: Option<Value> := None,
        start: Option<Value> := None,
        end: Option<Value> := None,
        score: Option<Value> := None,
        strand: Option<Value> := None,
        frame: Option<Value> := None,
        phase: Option<Value> := None,
        attributes: Option<AttrMap> := None,
        child_features: seq<Item> := [],
        derived_features: seq<Item> := [],
        directive: Option<string> := None,
        value: Option<string> := None,
        buildname: Option<string> := None,
        id: Option<string> := None,
        description: Option<string> := None,
        sequence: Option<string> := None,
        comment: Option<string> := None)

  /** `f[fieldNames[i]]` for the eight scalar columns of a feature line. */
  function Column(d: Dialect, f: Item, i: nat): Option<Value>
    requires f.Object? && i < 8
  {
    if i == 0 then (if d == TsUtil then f.seq_name else f.seq_id)
    else if i == 1 then f.source
    else if i == 2 then (if d == TsUtil then f.featureType else f.type_)
    else if i == 3 then f.start
    else if i == 4 then f.end
    else if i == 5 then f.score
    else if i == 6 then f.strand
    else (if d == TsUtil then f.frame else f.phase)
  }

  /** `item.sequence` is truthy; an array has no such property. */
  predicate HasSequence(item: Item) {
    item.Object? && Truthy(item.sequence)
  }

  /** `(chunk[0] || chunk).directive`. */
  function LeadingDirective(chunk: Item): Option<string> {
    var lead := if chunk.Array? && |chunk.elements| > 0 then chunk.elements[0] else chunk;
    if lead.Object? then lead.directive else None
  }
}
