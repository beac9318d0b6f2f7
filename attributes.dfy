/**
 * The ninth column of a feature line: `parseAttributes` and `formatAttributes`
 * of `src/util.ts` and `src/util.js`.
 *
 * The JavaScript object the parser builds maps each tag to an array of
 * values and keeps its tags in insertion order; it is modelled as a
 * sequence of entries with distinct keys.
 */
module Attributes {
  import opened Wrappers
  import opened JsString
  import opened Escaping
  import opened Dialects

  /** One tag of the attribute object with its value array. */
  datatype Attribute = Attribute(key: string, values: seq<string>)

  /** The attribute object, tags in insertion order. */
  type AttrMap = seq<Attribute>

  function Keys(m: AttrMap): seq<string> {
    seq(|m|, i requires 0 <= i < |m| => m[i].key)
  }

  predicate UniqueKeys(m: AttrMap) {
    forall i, j :: 0 <= i < j < |m| ==> m[i].key != m[j].key
  }

  /** Where the property `key` of the object sits, if it exists. */
  function IndexOf(m: AttrMap, key: string): (r: Option<nat>)
    ensures r.Some? ==> r.value < |m| && m[r.value].key == key
    ensures r.Some? ==> forall j :: 0 <= j < r.value ==> m[j].key != key
    ensures r.None? ==> forall j :: 0 <= j < |m| ==> m[j].key != key
  {
    if |m| == 0 then None
    else if m[0].key == key then Some(0)
    else match IndexOf(m[1..], key)
      case None => None
      case Some(j) => Some(j + 1)
  }

  /** `attrs[key]`, reading an absent key as no values. */
  function Lookup(m: AttrMap, key: string): seq<string> {
    match IndexOf(m, key)
    case None => []
    case Some(i) => m[i].values
  }

  /** `arec = attrs[key]`, created empty on first use, then `arec.push(...values)`. */
  function Add(m: AttrMap, key: string, values: seq<string>): AttrMap {
    match IndexOf(m, key)
    case None => m + [Attribute(key, values)]
    case Some(i) => m[i := Attribute(key, m[i].values + values)]
  }

  // ---------------------------------------------------------------------
  // parsing

  /** What one clause's value text contributes to its tag. */
  function ClauseValues(d: Dialect, raw: string): seq<string> {
    match d
    case TsUtil =>
      // `raw.split(',').map(s => s.trim()).map(unescape)`
      var pieces := Split(raw, ',');
      seq(|pieces|, i requires 0 <= i < |pieces| => UnescapeText(Trim(pieces[i])))
    case JsUtil =>
      // `unescape(raw.trim()).replace(/["]+/g, '')`
      [Without(UnescapeText(Trim(raw)), '"')]
  }

  /**
   * One `;`-separated clause: nothing when it is empty or its trimmed text
   * has no non-empty second blank-separated word; otherwise the trimmed
   * first word as tag and the values of the second word. Words after the
   * second are dropped.
   */
  function ParseClause(d: Dialect, clause: string): Option<Attribute> {
    if clause == "" then None
    else
      var attr := Split(Trim(clause), ' ');
      if |attr| < 2 || attr[1] == "" then None
      else Some(Attribute(Trim(attr[0]), ClauseValues(d, attr[1])))
  }

  /** The clauses of the column: one trailing line break removed, then the last character, then split on `;`. */
  function Clauses(text: string): seq<string> {
    Split(DropLast(StripLineEnd(text)), ';')
  }

  /** The object after the clauses have been processed in order. */
  function Collect(d: Dialect, clauses: seq<string>): AttrMap {
    if clauses == [] then []
    else
      var m := Collect(d, clauses[..|clauses| - 1]);
      match ParseClause(d, clauses[|clauses| - 1])
      case None => m
      case Some(a) => Add(m, a.key, a.values)
  }

  lemma CollectStep(d: Dialect, clauses: seq<string>)
    requires clauses != []
    ensures Collect(d, clauses) ==
      match ParseClause(d, clauses[|clauses| - 1])
      case None => Collect(d, clauses[..|clauses| - 1])
      case Some(a) => Add(Collect(d, clauses[..|clauses| - 1]), a.key, a.values)
  {
  }

  /**
   * The properties every object literal inherits from `Object.prototype`.
   * `attrs[tag]` finds them on an object that was never given them: the
   * result is truthy and has no `push`, so the call on it throws a `TypeError`.
   */
  const InheritedNames: set<string> := {
    "constructor", "hasOwnProperty", "isPrototypeOf", "propertyIsEnumerable",
    "toLocaleString", "toString", "valueOf", "__proto__",
    "__defineGetter__", "__defineSetter__", "__lookupGetter__", "__lookupSetter__"
  }

  predicate Inherited(key: string) {
    key in InheritedNames
  }

  /**
   * The `forEach` callback on the object built so far: an own entry is
   * extended, an inherited property throws (`None`), any other tag gets a
   * new entry.
   */
  function Step(d: Dialect, m: AttrMap, clause: string): Option<AttrMap> {
    match ParseClause(d, clause)
    case None => Some(m)
    case Some(a) =>
      if IndexOf(m, a.key).None? && Inherited(a.key) then None else Some(Add(m, a.key, a.values))
  }

  /** The clauses processed in order: the object, or `None` once a clause has thrown. */
  function CollectOrThrow(d: Dialect, clauses: seq<string>): Option<AttrMap> {
    if clauses == [] then Some([])
    else
      match CollectOrThrow(d, clauses[..|clauses| - 1])
      case None => None
      case Some(m) => Step(d, m, clauses[|clauses| - 1])
  }

  /** The clause contributes under an inherited property's name. */
  predicate Throwing(d: Dialect, clause: string) {
    ParseClause(d, clause).Some? && Inherited(ParseClause(d, clause).value.key)
  }

  /** Some clause throws. */
  predicate Throws(d: Dialect, clauses: seq<string>) {
    clauses != [] && (Throws(d, clauses[..|clauses| - 1]) || Throwing(d, clauses[|clauses| - 1]))
  }

  /** `parseAttributes(text)`: the empty object for a missing, empty or `.` column; `None` where it throws. */
  function AttributesOf(d: Dialect, text: Option<string>): Option<AttrMap> {
    if !Truthy(text) || text.value == "." then Some([]) else CollectOrThrow(d, Clauses(text.value))
  }

  /** `parseAttributes`, clause by clause as the source's `forEach` does; `None` is the thrown `TypeError`. */
  method ParseAttributes(d: Dialect, attrString: Option<string>) returns (attrs: Option<AttrMap>)
    ensures attrs == AttributesOf(d, attrString)
  {
    attrs := Some([]);
    if !Truthy(attrString) || attrString.value == "." {
      return;
    }
    attrs := ApplyClauses(d, Clauses(attrString.value));
  }

  /** The `forEach` over the clauses of `parseAttributes`, left at the first clause that throws. */
  method ApplyClauses(d: Dialect, clauses: seq<string>) returns (attrs: Option<AttrMap>)
    ensures attrs == CollectOrThrow(d, clauses)
  {
    var current: AttrMap := [];
    for n := 0 to |clauses|
      invariant CollectOrThrow(d, clauses[..n]) == Some(current)
    {
      assert clauses[..n + 1][..n] == clauses[..n];
      var next := ApplyClause(d, current, clauses[n]);
      if next.None? {
        ThrowPersists(d, clauses, n + 1);
        return None;
      }
      current := next.value;
    }
    WholePrefix(clauses);
    return Some(current);
  }

  /** Once a clause has thrown, the later clauses are never reached. */
  lemma {:induction false} ThrowPersists(d: Dialect, clauses: seq<string>, k: nat)
    requires k <= |clauses| && CollectOrThrow(d, clauses[..k]) == None
    ensures CollectOrThrow(d, clauses) == None
    decreases |clauses|
  {
    if k == |clauses| {
      WholePrefix(clauses);
    } else {
      var front := clauses[..|clauses| - 1];
      assert front[..k] == clauses[..k];
      ThrowPersists(d, front, k);
    }
  }

  /** The `forEach` callback of `parseAttributes`: one clause added to the object, or the `TypeError` as `None`. */
  method ApplyClause(d: Dialect, attrs: AttrMap, attribute: string) returns (attrs': Option<AttrMap>)
    ensures attrs' == Step(d, attrs, attribute)
  {
    attrs' := Some(attrs);
    if attribute == "" {
      return;
    }
    var attr := Split(Trim(attribute), ' ');
    if |attr| < 2 || attr[1] == "" {
      return;
    }
    var key := Trim(attr[0]);
    assert ParseClause(d, attribute) == Some(Attribute(key, ClauseValues(d, attr[1])));
    var existing := IndexOf(attrs, key);
    if existing.None? && Inherited(key) {
      // `arec` is the inherited property, which has no `push`
      return None;
    }
    var values := ClauseValues(d, attr[1]);
    assert Step(d, attrs, attribute) == Some(Add(attrs, key, values));
    if existing.None? {
      attrs' := Some(attrs + [Attribute(key, values)]);
    } else {
      attrs' := Some(attrs[existing.value := Attribute(key, attrs[existing.value].values + values)]);
    }
  }

  /**
   * One clause: one that does not contribute changes nothing; one whose tag
   * is new and names an inherited property throws; any other adds its values
   * under its tag.
   */
  lemma StepCases(d: Dialect, m: AttrMap, clause: string)
    ensures ParseClause(d, clause).None? ==> Step(d, m, clause) == Some(m)
    ensures ParseClause(d, clause).Some? ==>
      var a := ParseClause(d, clause).value;
      (Step(d, m, clause).None? <==> a.key !in Keys(m) && Inherited(a.key)) &&
      (Step(d, m, clause).Some? ==> Step(d, m, clause).value == Add(m, a.key, a.values))
  {
    if ParseClause(d, clause).Some? {
      IndexOfNoneKeys(m, ParseClause(d, clause).value.key);
    }
  }

  /** A tag is found exactly when it is one of the object's tags. */
  lemma IndexOfNoneKeys(m: AttrMap, key: string)
    ensures IndexOf(m, key).None? <==> key !in Keys(m)
  {
    if IndexOf(m, key).Some? {
      assert Keys(m)[IndexOf(m, key).value] == key;
    }
  }

  lemma WholePrefix<T>(xs: seq<T>)
    ensures xs[..|xs|] == xs
  {
  }

  // ---------------------------------------------------------------------
  // what parsing produces

  /** The tags of the clauses that contribute something, in order, repeats included. */
  function ClauseKeys(d: Dialect, clauses: seq<string>): seq<string> {
    if clauses == [] then []
    else
      ClauseKeys(d, clauses[..|clauses| - 1]) +
      match ParseClause(d, clauses[|clauses| - 1])
      case None => []
      case Some(a) => [a.key]
  }

  /** All values the clauses give to `key`, in clause order. */
  function ValuesFor(d: Dialect, clauses: seq<string>, key: string): seq<string> {
    if clauses == [] then []
    else
      ValuesFor(d, clauses[..|clauses| - 1], key) +
      match ParseClause(d, clauses[|clauses| - 1])
      case Some(a) => if a.key == key then a.values else []
      case None => []
  }

  /** The first occurrence of each element, in order. */
  function Distinct(xs: seq<string>): seq<string> {
    if xs == [] then []
    else
      var front := xs[..|xs| - 1];
      Distinct(front) + if xs[|xs| - 1] in front then [] else [xs[|xs| - 1]]
  }

  function Occurrences(xs: seq<string>, x: string): nat {
    if xs == [] then 0
    else Occurrences(xs[..|xs| - 1], x) + if xs[|xs| - 1] == x then 1 else 0
  }

  /** The shape every parsed object has: distinct, non-empty tags, each with at least one value. */
  predicate WellFormed(m: AttrMap) {
    UniqueKeys(m) &&
    forall i :: 0 <= i < |m| ==> m[i].key != "" && |m[i].values| >= 1
  }

  /** Every contributing clause has a non-empty tag and at least one value; in `src/util.js` exactly one, without `"`. */
  lemma ParseClauseShape(d: Dialect, clause: string)
    ensures ParseClause(d, clause).Some? ==>
      var a := ParseClause(d, clause).value;
      a.key != "" && |a.values| >= 1 &&
      (d == JsUtil ==> |a.values| == 1 && '"' !in a.values[0])
  {
    if ParseClause(d, clause).Some? {
      var t := Trim(clause);
      var attr := Split(t, ' ');
      assert t != [] && !IsSpace(t[0]);
      SplitFirstChar(t, ' ');
      TrimKeepsFirst(attr[0]);
    }
  }

  /** A string that does not start with the separator splits into a first piece starting with its first character. */
  lemma SplitFirstChar(s: string, sep: char)
    requires s != [] && s[0] != sep
    ensures Split(s, sep)[0] != "" && Split(s, sep)[0][0] == s[0]
  {
  }

  lemma TrimKeepsFirst(s: string)
    requires s != [] && !IsSpace(s[0])
    ensures Trim(s) != ""
  {
    assert TrimStart(s) == s;
  }

  lemma AddKeepsPrefix(m: AttrMap, key: string, values: seq<string>)
    ensures WellFormed(m) && key != "" && |values| >= 1 ==> WellFormed(Add(m, key, values))
  {
  }

  /** No value of the object holds a `"`. */
  predicate QuoteFree(m: AttrMap) {
    forall i, j :: 0 <= i < |m| && 0 <= j < |m[i].values| ==> '"' !in m[i].values[j]
  }

  lemma AddQuoteFree(m: AttrMap, key: string, values: seq<string>)
    requires QuoteFree(m) && forall j :: 0 <= j < |values| ==> '"' !in values[j]
    ensures QuoteFree(Add(m, key, values))
  {
    var r := Add(m, key, values);
    forall i, j | 0 <= i < |r| && 0 <= j < |r[i].values|
      ensures '"' !in r[i].values[j]
    {
      match IndexOf(m, key)
      case None =>
        if i < |m| {
          assert r[i] == m[i];
        }
      case Some(k) =>
        if i == k {
          assert r[i].values == m[k].values + values;
          if j >= |m[k].values| {
            assert r[i].values[j] == values[j - |m[k].values|];
          }
        } else {
          assert r[i] == m[i];
        }
    }
  }

  /** What `parseAttributes` returns is well formed, whatever the column holds. */
  lemma {:induction false} CollectWellFormed(d: Dialect, clauses: seq<string>)
    ensures WellFormed(Collect(d, clauses))
    ensures d == JsUtil ==> QuoteFree(Collect(d, clauses))
  {
    if clauses != [] {
      var front := clauses[..|clauses| - 1];
      var last := clauses[|clauses| - 1];
      CollectWellFormed(d, front);
      ParseClauseShape(d, last);
      CollectStep(d, clauses);
      var c := ParseClause(d, last);
      if c.Some? {
        AddKeepsPrefix(Collect(d, front), c.value.key, c.value.values);
        if d == JsUtil {
          AddQuoteFree(Collect(d, front), c.value.key, c.value.values);
        }
      }
    }
  }


  /** The first position holding `key` is what `IndexOf` finds. */
  lemma {:induction false} IndexOfFirst(m: AttrMap, key: string, p: nat)
    requires p < |m| && m[p].key == key
    requires forall j :: 0 <= j < p ==> m[j].key != key
    ensures IndexOf(m, key) == Some(p)
  {
    if p > 0 {
      assert m[0].key != key;
      IndexOfFirst(m[1..], key, p - 1);
    }
  }

  /** Extending or updating an object without changing its existing tags keeps where a present tag is found. */
  lemma IndexOfKept(m: AttrMap, m': AttrMap, key: string)
    requires |m| <= |m'| && forall j :: 0 <= j < |m| ==> m'[j].key == m[j].key
    requires IndexOf(m, key).Some?
    ensures IndexOf(m', key) == IndexOf(m, key)
  {
    IndexOfFirst(m', key, IndexOf(m, key).value);
  }

  lemma AddLookup(m: AttrMap, k: string, values: seq<string>, key: string)
    ensures Lookup(Add(m, k, values), key) == Lookup(m, key) + if k == key then values else []
  {
    match IndexOf(m, k)
    case None =>
      var m' := m + [Attribute(k, values)];
      assert Add(m, k, values) == m';
      if IndexOf(m, key).Some? {
        IndexOfKept(m, m', key);
      } else if k == key {
        IndexOfFirst(m', key, |m|);
      } else {
        IndexOfAbsent(m', key);
      }
    case Some(i) =>
      var m' := m[i := Attribute(k, m[i].values + values)];
      assert Add(m, k, values) == m';
      IndexOfSameKeys(m, m', key);
  }

  lemma IndexOfAbsent(m: AttrMap, key: string)
    requires forall j :: 0 <= j < |m| ==> m[j].key != key
    ensures IndexOf(m, key).None?
  {
  }

  /** Changing only values keeps where every tag is found. */
  lemma IndexOfSameKeys(m: AttrMap, m': AttrMap, key: string)
    requires |m| == |m'| && forall j :: 0 <= j < |m| ==> m'[j].key == m[j].key
    ensures IndexOf(m', key) == IndexOf(m, key)
  {
    if IndexOf(m, key).Some? {
      IndexOfKept(m, m', key);
    }
  }


  /** The values of a tag are the values of all its clauses, concatenated in clause order. */
  lemma {:induction false} CollectLookup(d: Dialect, clauses: seq<string>, key: string)
    ensures Lookup(Collect(d, clauses), key) == ValuesFor(d, clauses, key)
  {
    if clauses != [] {
      var front := clauses[..|clauses| - 1];
      CollectLookup(d, front, key);
      var c := ParseClause(d, clauses[|clauses| - 1]);
      if c.Some? {
        AddLookup(Collect(d, front), c.value.key, c.value.values, key);
      }
    }
  }

  lemma AddKeys(m: AttrMap, k: string, values: seq<string>)
    ensures Keys(Add(m, k, values)) == if k in Keys(m) then Keys(m) else Keys(m) + [k]
  {
    match IndexOf(m, k)
    case None =>
      assert k !in Keys(m);
    case Some(i) =>
      assert Keys(m)[i] == k;
  }

  lemma {:induction false} DistinctElements(xs: seq<string>)
    ensures forall x :: x in Distinct(xs) <==> x in xs
  {
    if xs != [] {
      var front := xs[..|xs| - 1];
      DistinctElements(front);
      assert xs == front + [xs[|xs| - 1]];
    }
  }

  /** The tags come out in the order of their first clause. */
  lemma {:induction false} CollectKeys(d: Dialect, clauses: seq<string>)
    ensures Keys(Collect(d, clauses)) == Distinct(ClauseKeys(d, clauses))
  {
    if clauses != [] {
      var front := clauses[..|clauses| - 1];
      CollectKeys(d, front);
      var c := ParseClause(d, clauses[|clauses| - 1]);
      CollectStep(d, clauses);
      if c.Some? {
        var ks := ClauseKeys(d, clauses);
        var fks := ClauseKeys(d, front);
        assert ks == fks + [c.value.key];
        assert ks[..|ks| - 1] == fks;
        DistinctElements(fks);
        AddKeys(Collect(d, front), c.value.key, c.value.values);
        assert Distinct(ks) == Distinct(fks) + if c.value.key in fks then [] else [c.value.key];
      } else {
        assert ClauseKeys(d, clauses) == ClauseKeys(d, front);
      }
    }
  }

  /**
   * `parseAttributes` throws exactly when some contributing clause is tagged
   * with an inherited property's name; otherwise it returns the object
   * `Collect` describes.
   */
  lemma {:induction false} CollectOrThrowSpec(d: Dialect, clauses: seq<string>)
    ensures CollectOrThrow(d, clauses) == if Throws(d, clauses) then None else Some(Collect(d, clauses))
  {
    if clauses != [] {
      var front := clauses[..|clauses| - 1];
      CollectOrThrowSpec(d, front);
      CollectStep(d, clauses);
      var c := ParseClause(d, clauses[|clauses| - 1]);
      if !Throws(d, front) && c.Some? && Inherited(c.value.key) {
        InheritedAbsent(d, front, c.value.key);
        IndexOfNoneKeys(Collect(d, front), c.value.key);
      }
    }
  }

  /** Without a throwing clause, no inherited name becomes a tag of the object. */
  lemma {:induction false} InheritedAbsent(d: Dialect, clauses: seq<string>, key: string)
    requires !Throws(d, clauses) && Inherited(key)
    ensures key !in Keys(Collect(d, clauses))
  {
    if clauses != [] {
      var front := clauses[..|clauses| - 1];
      InheritedAbsent(d, front, key);
      CollectStep(d, clauses);
      var c := ParseClause(d, clauses[|clauses| - 1]);
      if c.Some? {
        AddKeys(Collect(d, front), c.value.key, c.value.values);
      }
    }
  }

  /** In `src/util.js` a tag holds exactly one value per clause that names it. */
  lemma {:induction false} JsValuePerClause(clauses: seq<string>, key: string)
    ensures |Lookup(Collect(JsUtil, clauses), key)| == Occurrences(ClauseKeys(JsUtil, clauses), key)
  {
    CollectLookup(JsUtil, clauses, key);
    JsValuesFor(clauses, key);
  }

  lemma {:induction false} JsValuesFor(clauses: seq<string>, key: string)
    ensures |ValuesFor(JsUtil, clauses, key)| == Occurrences(ClauseKeys(JsUtil, clauses), key)
  {
    if clauses != [] {
      var front := clauses[..|clauses| - 1];
      JsValuesFor(front, key);
      var c := ParseClause(JsUtil, clauses[|clauses| - 1]);
      var ks := ClauseKeys(JsUtil, clauses);
      if c.Some? {
        assert ks[..|ks| - 1] == ClauseKeys(JsUtil, front);
        ParseClauseShape(JsUtil, clauses[|clauses| - 1]);
      } else {
        assert ks == ClauseKeys(JsUtil, front);
      }
    }
  }

  // ---------------------------------------------------------------------
  // formatting

  function EscapeAll(values: seq<string>): seq<string> {
    seq(|values|, i requires 0 <= i < |values| => Escape(values[i]))
  }

  /** `${escape(tag)} ${valstring}` for an array value: the escaped values joined by `,`. */
  function FormatPair(a: Attribute): string {
    Escape(a.key) + " " + Join(EscapeAll(a.values), ",")
  }

  function Pairs(m: AttrMap): seq<string> {
    seq(|m|, i requires 0 <= i < |m| => FormatPair(m[i]))
  }

  /** `formatAttributes(attrs)`: the pairs joined by `; ` with a final `;`, or `.` for an empty object. */
  function FormatAttributes(m: AttrMap): string {
    if |m| == 0 then "." else Join(Pairs(m), "; ") + ";"
  }

  /**
   * The formatted column holds no tab and no line break, so it stays one
   * column of one line; it is `.` exactly for the empty object and otherwise
   * ends with `;`.
   */
  lemma FormatAttributesColumn(m: AttrMap)
    ensures var r := FormatAttributes(m);
      '\t' !in r && '\n' !in r && (r == "." <==> |m| == 0) && (|m| > 0 ==> r[|r| - 1] == ';')
  {
    var p := Pairs(m);
    forall i | 0 <= i < |p|
      ensures '\t' !in p[i] && '\n' !in p[i]
    {
      EscapeHasNoSeparators(m[i].key);
      var vs := EscapeAll(m[i].values);
      forall j | 0 <= j < |vs|
        ensures '\t' !in vs[j] && '\n' !in vs[j]
      {
        EscapeHasNoSeparators(m[i].values[j]);
      }
      JoinWithout(vs, ",", '\t');
      JoinWithout(vs, ",", '\n');
    }
    JoinWithout(p, "; ", '\t');
    JoinWithout(p, "; ", '\n');
    if |m| > 0 {
      var r := FormatAttributes(m);
      assert r[|r| - 1] == ';';
      assert |p[0]| >= 1;
      JoinFirst(p, "; ");
      assert r[0] == p[0][0];
      EscapeLength(AttributeChars, m[0].key);
      if |Escape(m[0].key)| == 0 {
        assert p[0][0] == ' ';
      } else {
        assert p[0][0] == Escape(m[0].key)[0];
      }
      assert r != ".";
    }
  }

  // ---------------------------------------------------------------------
  // round trips

  /** A tag that survives formatting and the blank-separated reading: non-empty, no white space, nothing `escape` rewrites (tags are never unescaped). */
  predicate BareKey(k: string) {
    k != "" && NoSpace(k) && Clean(AttributeChars, k)
  }

  /** A tag that formats and reads back unchanged: bare, and not the name of an inherited property, on which parsing throws. */
  predicate PlainKey(k: string) {
    BareKey(k) && !Inherited(k)
  }

  /** A value that survives the blank-separated reading: non-empty and without white space. */
  predicate PlainValue(v: string) {
    v != "" && NoSpace(v)
  }

  predicate Formattable(m: AttrMap) {
    UniqueKeys(m) &&
    forall i :: 0 <= i < |m| ==>
      PlainKey(m[i].key) && |m[i].values| >= 1 &&
      forall j :: 0 <= j < |m[i].values| ==> PlainValue(m[i].values[j])
  }

  /** `[p0, " " + p1, " " + p2, ...]`: the pieces that `join('; ')` puts between `;`. */
  function Spaced(p: seq<string>): seq<string> {
    seq(|p|, i requires 0 <= i < |p| => if i == 0 then p[0] else " " + p[i])
  }

  lemma {:induction false} JoinSpaced(p: seq<string>)
    ensures Join(p, "; ") == Join(Spaced(p), ";")
  {
    var n := |p|;
    if n > 1 {
      JoinSpaced(p[..n - 1]);
      SpacedSnoc(p);
      JoinSnoc(p, "; ");
      JoinSnoc(Spaced(p), ";");
      Regroup(Join(p[..n - 1], "; "), p[n - 1]);
    }
  }

  lemma SpacedSnoc(p: seq<string>)
    requires |p| > 1
    ensures Spaced(p)[..|p| - 1] == Spaced(p[..|p| - 1]) && Spaced(p)[|p| - 1] == " " + p[|p| - 1]
  {
  }

  lemma JoinSnoc(p: seq<string>, sep: string)
    requires |p| > 1
    ensures Join(p, sep) == Join(p[..|p| - 1], sep) + sep + p[|p| - 1]
  {
  }

  lemma Regroup(a: string, b: string)
    ensures a + "; " + b == a + ";" + (" " + b)
  {
  }

  /** The joined, escaped values of a formattable entry: no white space, no `;`, not empty. */
  lemma ValueTextShape(vs: seq<string>)
    requires |vs| >= 1 && forall j :: 0 <= j < |vs| ==> PlainValue(vs[j])
    ensures var t := Join(EscapeAll(vs), ","); NoSpace(t) && ';' !in t && t != ""
    ensures forall j :: 0 <= j < |vs| ==> ',' !in EscapeAll(vs)[j] && NoSpace(EscapeAll(vs)[j])
  {
    var e := EscapeAll(vs);
    forall j | 0 <= j < |e|
      ensures ',' !in e[j] && ';' !in e[j] && NoSpace(e[j])
    {
      EscapeHasNoSeparators(vs[j]);
    }
    JoinNoSpace(e, ",");
    JoinWithout(e, ",", ';');
    EscapeLength(AttributeChars, vs[|vs| - 1]);
    JoinLast(e, ",");
  }

  /** The words of a formatted pair, padded with one blank or not. */
  lemma PairWords(a: Attribute, clause: string)
    requires BareKey(a.key) && |a.values| >= 1 && forall j :: 0 <= j < |a.values| ==> PlainValue(a.values[j])
    requires clause == FormatPair(a) || clause == " " + FormatPair(a)
    ensures clause != ""
    ensures Split(Trim(clause), ' ') == [a.key, Join(EscapeAll(a.values), ",")]
  {
    EscapeIdentity(AttributeChars, a.key);
    ValueTextShape(a.values);
    TwoWords(a.key, Join(EscapeAll(a.values), ","), clause);
  }

  /** A formatted pair reads back, through `src/util.ts`, as the same entry. */
  lemma ParseFormattedClauseTs(a: Attribute, clause: string)
    requires BareKey(a.key) && |a.values| >= 1 && forall j :: 0 <= j < |a.values| ==> PlainValue(a.values[j])
    requires clause == FormatPair(a) || clause == " " + FormatPair(a)
    ensures ParseClause(TsUtil, clause) == Some(a)
  {
    PairWords(a, clause);
    TrimUnpadded(a.key);
    ValueTextShape(a.values);
    TsValuesOfFormatted(a.values);
    var attr := Split(Trim(clause), ' ');
    assert attr[1] == Join(EscapeAll(a.values), ",") && attr[1] != "";
    assert Trim(attr[0]) == a.key;
  }

  /** The escaped values joined by `,` read back, through `src/util.ts`, as the values. */
  lemma TsValuesOfFormatted(vs: seq<string>)
    requires |vs| >= 1 && forall j :: 0 <= j < |vs| ==> PlainValue(vs[j])
    ensures ClauseValues(TsUtil, Join(EscapeAll(vs), ",")) == vs
  {
    var e := EscapeAll(vs);
    ValueTextShape(vs);
    SplitJoin(e, ',');
    var r := ClauseValues(TsUtil, Join(e, ","));
    assert |r| == |vs|;
    forall j | 0 <= j < |vs|
      ensures r[j] == vs[j]
    {
      TrimUnpadded(e[j]);
      UnescapeEscape(AttributeChars, vs[j]);
    }
  }

  /** Decoding escaped values joined by `,` gives the values joined by `,`. */
  lemma {:induction false} UnescapeJoined(vs: seq<string>)
    ensures UnescapeText(Join(EscapeAll(vs), ",")) == Join(vs, ",")
  {
    if |vs| == 1 {
      UnescapeEscape(AttributeChars, vs[0]);
    } else if |vs| > 1 {
      var rest := vs[1..];
      UnescapeJoined(rest);
      var tail := Join(EscapeAll(rest), ",");
      JoinedCons(vs);
      UnescapeEscapeThen(AttributeChars, vs[0], "," + tail);
      UnescapeComma(tail);
    }
  }

  lemma JoinedCons(vs: seq<string>)
    requires |vs| > 1
    ensures Join(EscapeAll(vs), ",") == Escape(vs[0]) + ("," + Join(EscapeAll(vs[1..]), ","))
    ensures Join(vs, ",") == vs[0] + ("," + Join(vs[1..], ","))
  {
    var e := EscapeAll(vs);
    EscapeAllCons(vs);
    JoinConsAssoc(e[0], e[1..]);
    assert e == [e[0]] + e[1..];
    JoinConsAssoc(vs[0], vs[1..]);
    assert vs == [vs[0]] + vs[1..];
  }

  lemma JoinConsAssoc(h: string, t: seq<string>)
    requires |t| >= 1
    ensures Join([h] + t, ",") == h + ("," + Join(t, ","))
  {
    JoinCons(h, t, ",");
  }

  lemma EscapeAllCons(vs: seq<string>)
    requires |vs| > 0
    ensures EscapeAll(vs)[0] == Escape(vs[0]) && EscapeAll(vs)[1..] == EscapeAll(vs[1..])
  {
  }

  lemma UnescapeComma(t: string)
    ensures UnescapeText("," + t) == "," + UnescapeText(t)
  {
    assert ("," + t)[1..] == t;
  }

  /** A formatted pair reads back, through `src/util.js`, as one value: the values joined by `,`, quotes removed. */
  lemma ParseFormattedClauseJs(a: Attribute, clause: string)
    requires BareKey(a.key) && |a.values| >= 1 && forall j :: 0 <= j < |a.values| ==> PlainValue(a.values[j])
    requires clause == FormatPair(a) || clause == " " + FormatPair(a)
    ensures ParseClause(JsUtil, clause) == Some(Attribute(a.key, [Without(Join(a.values, ","), '"')]))
  {
    PairWords(a, clause);
    TrimUnpadded(a.key);
    ValueTextShape(a.values);
    TrimUnpadded(Join(EscapeAll(a.values), ","));
    UnescapeJoined(a.values);
  }

  /** The clauses `formatAttributes` writes, as `parseAttributes` cuts them apart again. */
  lemma FormattedClauses(m: AttrMap)
    requires |m| > 0 && Formattable(m)
    ensures Clauses(FormatAttributes(m)) == Spaced(Pairs(m))
  {
    var p := Pairs(m);
    var text := FormatAttributes(m);
    var joined := Join(p, "; ");
    assert text == joined + ";";
    assert StripLineEnd(text) == text;
    var dropped := DropLast(text);
    assert dropped + [';'] == joined + [';'];
    assert dropped == (dropped + [';'])[..|dropped|];
    assert dropped == joined;
    JoinSpaced(p);
    var q := Spaced(p);
    forall i | 0 <= i < |q|
      ensures ';' !in q[i]
    {
      ValueTextShape(m[i].values);
      EscapeHasNoSeparators(m[i].key);
      assert p[i] == Escape(m[i].key) + " " + Join(EscapeAll(m[i].values), ",");
    }
    SplitJoin(q, ';');
  }

  /** No clause `formatAttributes` writes is tagged with an inherited name, so reading it back does not throw. */
  lemma FormattedNoThrow(d: Dialect, m: AttrMap)
    requires Formattable(m)
    ensures !Throws(d, Spaced(Pairs(m)))
  {
    FormattedNoThrowPrefix(d, m, |m|);
    WholePrefix(Spaced(Pairs(m)));
  }

  lemma {:induction false} FormattedNoThrowPrefix(d: Dialect, m: AttrMap, n: nat)
    requires Formattable(m) && n <= |m|
    ensures !Throws(d, Spaced(Pairs(m))[..n])
  {
    if n > 0 {
      var q := Spaced(Pairs(m));
      FormattedNoThrowPrefix(d, m, n - 1);
      assert q[..n][..n - 1] == q[..n - 1];
      assert q[..n][n - 1] == q[n - 1];
      assert q[n - 1] == FormatPair(m[n - 1]) || q[n - 1] == " " + FormatPair(m[n - 1]);
      FormattedClauseNoThrow(d, m[n - 1], q[n - 1]);
      assert !Throwing(d, q[..n][n - 1]) && !Throws(d, q[..n][..n - 1]);
    }
  }

  lemma FormattedClauseNoThrow(d: Dialect, a: Attribute, clause: string)
    requires PlainKey(a.key) && |a.values| >= 1 && forall j :: 0 <= j < |a.values| ==> PlainValue(a.values[j])
    requires clause == FormatPair(a) || clause == " " + FormatPair(a)
    ensures !Throwing(d, clause)
  {
    match d
    case TsUtil => ParseFormattedClauseTs(a, clause);
    case JsUtil => ParseFormattedClauseJs(a, clause);
  }

  /** Parsing a written non-empty object does not throw: it is `Collect` of the written clauses. */
  lemma ReadBackClauses(d: Dialect, m: AttrMap)
    requires |m| > 0 && Formattable(m)
    ensures AttributesOf(d, Some(FormatAttributes(m))) == Some(Collect(d, Spaced(Pairs(m))))
  {
    var text := FormatAttributes(m);
    FormatAttributesColumn(m);
    assert AttributesOf(d, Some(text)) == CollectOrThrow(d, Clauses(text));
    FormattedClauses(m);
    FormattedNoThrow(d, m);
    CollectOrThrowSpec(d, Spaced(Pairs(m)));
  }

  /** `src/util.ts`: parsing what `formatAttributes` writes gives the object back. */
  lemma FormatParseTs(m: AttrMap)
    requires Formattable(m)
    ensures AttributesOf(TsUtil, Some(FormatAttributes(m))) == Some(m)
  {
    if |m| > 0 {
      ReadBackClauses(TsUtil, m);
      var q := Spaced(Pairs(m));
      CollectFormattedTs(m, |m|);
      WholePrefix(m);
      WholePrefix(q);
    }
  }

  lemma {:induction false} CollectFormattedTs(m: AttrMap, n: nat)
    requires Formattable(m) && n <= |m|
    ensures Collect(TsUtil, Spaced(Pairs(m))[..n]) == m[..n]
  {
    if n > 0 {
      var q := Spaced(Pairs(m));
      CollectFormattedTs(m, n - 1);
      CollectStep(TsUtil, q[..n]);
      assert q[..n][..n - 1] == q[..n - 1];
      assert q[..n][n - 1] == q[n - 1];
      assert q[n - 1] == FormatPair(m[n - 1]) || q[n - 1] == " " + FormatPair(m[n - 1]);
      ParseFormattedClauseTs(m[n - 1], q[n - 1]);
      AddFresh(m, n);
    }
  }

  /** Under distinct tags, adding the next entry's tag appends that entry. */
  lemma AddFresh(m: AttrMap, n: nat)
    requires UniqueKeys(m) && 0 < n <= |m|
    ensures Add(m[..n - 1], m[n - 1].key, m[n - 1].values) == m[..n]
  {
    var front := m[..n - 1];
    assert forall j :: 0 <= j < |front| ==> front[j].key != m[n - 1].key;
    assert IndexOf(m[..n - 1], m[n - 1].key).None?;
    assert m[..n - 1] + [Attribute(m[n - 1].key, m[n - 1].values)] == m[..n];
  }

  /** The object `src/util.js` reads back: each tag with its values joined by `,` and quotes removed. */
  function Collapsed(m: AttrMap): AttrMap {
    seq(|m|, i requires 0 <= i < |m| => Attribute(m[i].key, [Without(Join(m[i].values, ","), '"')]))
  }

  /**
   * `src/util.js`: parsing what `formatAttributes` writes gives each tag back
   * with its values joined into one; an object whose tags carry one value
   * each, without `"`, comes back unchanged.
   */
  lemma FormatParseJs(m: AttrMap)
    requires Formattable(m)
    ensures AttributesOf(JsUtil, Some(FormatAttributes(m))) == Some(Collapsed(m))
    ensures (forall i :: 0 <= i < |m| ==> |m[i].values| == 1 && '"' !in m[i].values[0]) ==>
      AttributesOf(JsUtil, Some(FormatAttributes(m))) == Some(m)
  {
    JsReadBack(m);
    if forall i :: 0 <= i < |m| ==> |m[i].values| == 1 && '"' !in m[i].values[0] {
      CollapsedSingle(m);
    }
  }

  lemma JsReadBack(m: AttrMap)
    requires Formattable(m)
    ensures AttributesOf(JsUtil, Some(FormatAttributes(m))) == Some(Collapsed(m))
  {
    if |m| > 0 {
      var q := Spaced(Pairs(m));
      ReadBackClauses(JsUtil, m);
      CollectFormattedJs(m, |m|);
      WholePrefix(Collapsed(m));
      WholePrefix(q);
      assert Collect(JsUtil, q) == Collapsed(m);
    } else {
      assert FormatAttributes(m) == "." && Collapsed(m) == [];
    }
  }

  /** Tags with one value each, without `"`, collapse to themselves. */
  lemma CollapsedSingle(m: AttrMap)
    requires forall i :: 0 <= i < |m| ==> |m[i].values| == 1 && '"' !in m[i].values[0]
    ensures Collapsed(m) == m
  {
    forall i | 0 <= i < |m|
      ensures Collapsed(m)[i] == m[i]
    {
      assert Join(m[i].values, ",") == m[i].values[0];
      assert [m[i].values[0]] == m[i].values;
    }
  }


  lemma {:induction false} CollectFormattedJs(m: AttrMap, n: nat)
    requires |m| > 0 && Formattable(m) && n <= |m|
    ensures Collect(JsUtil, Spaced(Pairs(m))[..n]) == Collapsed(m)[..n]
  {
    if n > 0 {
      var q := Spaced(Pairs(m));
      CollectFormattedJs(m, n - 1);
      CollectStep(JsUtil, q[..n]);
      assert q[..n][..n - 1] == q[..n - 1];
      assert q[..n][n - 1] == q[n - 1];
      assert q[n - 1] == FormatPair(m[n - 1]) || q[n - 1] == " " + FormatPair(m[n - 1]);
      ParseFormattedClauseJs(m[n - 1], q[n - 1]);
      CollapsedKeys(m);
      AddFresh(Collapsed(m), n);
    }
  }

  lemma CollapsedKeys(m: AttrMap)
    requires UniqueKeys(m)
    ensures |Collapsed(m)| == |m| && UniqueKeys(Collapsed(m))
    ensures forall j :: 0 <= j < |m| ==> Collapsed(m)[j] == Attribute(m[j].key, [Without(Join(m[j].values, ","), '"')])
  {
  }

}
