/**
 * `_processParseOptions` of `src/api.js`: the options object of the parse
 * routines merged over the defaults, with `parseAll` switching every kind of
 * item on.
 */
module ParseOptions {

  /**
   * One property of an options object: missing, present but `undefined` or
   * `null`, or present with a value. `Object.assign` copies a present
   * property whatever it holds, so the middle case is not the same as the
   * first.
   */
  datatype Prop<T> = Missing | Nullish | Has(value: T)

  /** The properties of an options object the parse routines read. */
  datatype Options = Options(
    parseAll: Prop<bool> := Missing,
    parseFeatures: Prop<bool> := Missing,
    parseDirectives: Prop<bool> := Missing,
    parseSequences: Prop<bool> := Missing,
    parseComments: Prop<bool> := Missing,
    bufferSize: Prop<int> := Missing,
    encoding: Prop<string> := Missing)

  /** The truthiness of a flag. */
  predicate On(b: Prop<bool>) {
    b == Has(true)
  }

  /** The truthiness of a string property: present and not empty. */
  predicate TruthyText(s: Prop<string>) {
    s.Has? && s.value != ""
  }

  /** One property of `Object.assign(target, source)`: the source's when the source has it at all. */
  function Pick<T>(target: Prop<T>, source: Prop<T>): (r: Prop<T>)
    ensures !source.Missing? ==> r == source
    ensures source.Missing? ==> r == target
  {
    if source.Missing? then target else source
  }

  /** `Object.assign({}, a, b)`. */
  function Assign(a: Options, b: Options): Options {
    Options(Pick(a.parseAll, b.parseAll), Pick(a.parseFeatures, b.parseFeatures),
            Pick(a.parseDirectives, b.parseDirectives), Pick(a.parseSequences, b.parseSequences),
            Pick(a.parseComments, b.parseComments), Pick(a.bufferSize, b.bufferSize),
            Pick(a.encoding, b.encoding))
  }

  const Defaults := Options(parseFeatures := Has(true), parseDirectives := Has(false),
                            parseSequences := Has(true), parseComments := Has(false))

  /**
   * `_processParseOptions(options, additionalDefaults)`. The four parse flags
   * are always present in the result, though an explicit `undefined` or
   * `null` stays one; only `options.parseAll` is consulted for the override.
   */
  function ProcessParseOptions(options: Options, additionalDefaults: Options): (out: Options)
    ensures !out.parseFeatures.Missing? && !out.parseDirectives.Missing? &&
      !out.parseSequences.Missing? && !out.parseComments.Missing?
    ensures On(options.parseAll) ==>
      On(out.parseFeatures) && On(out.parseDirectives) && On(out.parseSequences) && On(out.parseComments)
  {
    var out := Assign(Assign(Defaults, additionalDefaults), options);
    if On(options.parseAll) then
      out.(parseFeatures := Has(true), parseDirectives := Has(true), parseSequences := Has(true), parseComments := Has(true))
    else out
  }

  /** The kinds of item the parser reports. */
  datatype Kind = Feature | Directive | Comment | Sequence

  /** The callbacks set up from the processed options: a kind is pushed when its flag is truthy. */
  function Reported(out: Options): set<Kind> {
    (if On(out.parseFeatures) then {Feature} else {}) +
    (if On(out.parseDirectives) then {Directive} else {}) +
    (if On(out.parseComments) then {Comment} else {}) +
    (if On(out.parseSequences) then {Sequence} else {})
  }

  /** With no options, features and sequences are reported, directives and comments are not. */
  lemma DefaultOptions()
    ensures Reported(ProcessParseOptions(Options(), Options())) == {Feature, Sequence}
  {
    var out := ProcessParseOptions(Options(), Options());
    assert out.parseFeatures == Has(true) && out.parseSequences == Has(true);
    assert out.parseDirectives == Has(false) && out.parseComments == Has(false);
  }

  /** `parseAll` reports every kind, whatever the other flags say. */
  lemma ParseAllReportsEverything(options: Options, additionalDefaults: Options)
    requires On(options.parseAll)
    ensures Reported(ProcessParseOptions(options, additionalDefaults)) == {Feature, Directive, Comment, Sequence}
  {
  }

  /**
   * A flag the options have, `undefined` and `null` included, wins over
   * every default unless `parseAll` is on; a flag only the additional
   * defaults have wins over the built-in default.
   */
  lemma ExplicitFlagWins(options: Options, additionalDefaults: Options, p: Prop<bool>)
    requires !On(options.parseAll) && !p.Missing?
    ensures options.parseDirectives == p ==> ProcessParseOptions(options, additionalDefaults).parseDirectives == p
    ensures options.parseFeatures == p ==> ProcessParseOptions(options, additionalDefaults).parseFeatures == p
    ensures options.parseComments == p ==> ProcessParseOptions(options, additionalDefaults).parseComments == p
    ensures options.parseSequences == p ==> ProcessParseOptions(options, additionalDefaults).parseSequences == p
    ensures options.parseFeatures.Missing? && additionalDefaults.parseFeatures == p ==>
      ProcessParseOptions(options, additionalDefaults).parseFeatures == p
    ensures options.parseDirectives.Missing? && additionalDefaults.parseDirectives == p ==>
      ProcessParseOptions(options, additionalDefaults).parseDirectives == p
    ensures options.parseComments.Missing? && additionalDefaults.parseComments == p ==>
      ProcessParseOptions(options, additionalDefaults).parseComments == p
    ensures options.parseSequences.Missing? && additionalDefaults.parseSequences == p ==>
      ProcessParseOptions(options, additionalDefaults).parseSequences == p
  {
  }

  /**
   * A flag given explicitly as `undefined` or `null` switches its kind off,
   * even the kinds that are on by default, unless `parseAll` is on.
   */
  lemma NullishFlagSwitchesOff(options: Options, additionalDefaults: Options)
    requires !On(options.parseAll)
    ensures var r := Reported(ProcessParseOptions(options, additionalDefaults));
      (options.parseFeatures.Nullish? ==> Feature !in r) &&
      (options.parseSequences.Nullish? ==> Sequence !in r) &&
      (options.parseDirectives.Nullish? ==> Directive !in r) &&
      (options.parseComments.Nullish? ==> Comment !in r)
  {
  }

  /**
   * Processing processed options again changes nothing, as long as
   * `parseAll` does not come from the additional defaults alone (there it is
   * copied into the result without taking effect, and takes effect the
   * second time).
   */
  lemma ProcessIdempotent(options: Options, additionalDefaults: Options)
    requires !additionalDefaults.parseAll.Missing? ==> !options.parseAll.Missing?
    ensures var out := ProcessParseOptions(options, additionalDefaults);
      ProcessParseOptions(out, Options()) == out
  {
  }
}
