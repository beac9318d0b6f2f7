# gtf-js codec core, modelled in Dafny

This project is a model of the codec at the heart of gtf-js, a JavaScript library that reads and writes GTF (Gene Transfer Format) text. The model covers:

- **The utilities of `src/util.ts`.** These are:
  - the `%XX` escaping of column and attribute text (`escape`, `escapeColumn`, `unescape`);
  - reading the ninth column into an attribute object, and writing it back (`parseAttributes`, `formatAttributes`), including the `TypeError` that a tag named like an inherited `Object.prototype` property (`constructor`, `toString`, ...) raises;
  - reading a feature line into a feature object (`parseFeature`);
  - reading a `##` directive line (`parseDirective`);
  - writing features with their child and derived features (`formatFeature`), where a line already written in the same call is not written again;
  - writing directives, comments and FASTA sequences;
  - the dispatch of `formatItem`.
- **The older variant `src/util.js`.** It names three fields differently (`seq_id`, `type`, `phase`). Each attribute clause yields one value, with every `"` removed. The model keeps both variants: every operation whose behaviour differs takes a `Dialect` (`TsUtil` or `JsUtil`).
- **The stream side of `src/api.js`:**
  - the option defaults of the parse routines (`_processParseOptions`);
  - the line splitting of the parsing transform, which keeps a partial line waiting for the next chunk and hands complete non-empty lines on;
  - `formatSync`, which writes sequences last under a `##FASTA` directive;
  - the formatting transform, which inserts a version directive, a `##FASTA` directive and `###` synchronisation marks.

Where the source changes state step by step, the model does the same:

- the `forEach` loops of `parseAttributes` and `formatSync`;
- the column loops of `parseFeature` and `_formatSingleFeature`;
- the shared `seenFeature` object;
- the two transform classes.

Each such method is proved equal to a specification function. The properties are lemmas about those functions:

- round trips (`unescape(escape(s)) == s`, parsing what `formatAttributes` and `formatFeature` write, directives read back);
- the shape of what a parse returns;
- de-duplication;
- the invariants of a whole stream of chunks.

**Modules:**

- `Wrappers`: JavaScript `null`/`undefined` and truthiness.
- `JsString`: the string built-ins the code relies on (`split`, `trim`, `join`, `split(/\r?\n/)`, `parseInt` on digits).
- `Escaping`, `Attributes`, `Items`, `FeatureParse`, `Directives`, `FeatureFormat`, `ItemFormat`: the utilities.
- `ParseOptions`, `LineTransform`, `FormatStream`: `src/api.js`.

Values are modelled as follows:

- A JavaScript object is a record of optional properties (`Items.Item`).
- An attribute object is a sequence of tag entries, kept in insertion order.
- Strings are sequences of characters.

`src/api.js` imports `./util`. The model takes that to be the `src/util.ts` behaviour, which the TypeScript tests expect (field `seq_name`, quotes kept).

## Model

| member | source | states |
|---|---|---|
| Escaping.UnescapeEscape | src/util.ts:29-58 | `unescape(escape(s))` and `unescape(escapeColumn(s))` give back `s`, for every string |
| Escaping.UnescapeEscapeThen | src/util.ts:33-35 | decoding an escaped string followed by any text decodes the two parts separately |
| Escaping.UnescapeEscapeNullable | src/util.ts:30-32 | the round trip also holds through the null-transparent `unescape`: `null` comes back as `null` |
| Escaping.EscapeCharShape | src/util.ts:44-54 | a reserved character becomes `%` and two upper-case hex digits that read back as its code; any other character is kept |
| Escaping.PaddedHexShape | src/util.js:43-54 | every code below 256 is written as exactly two upper-case hex digits, zero-padded, whose value is the code |
| Escaping.EscapedChars | src/util.js:44-53 | every character `_escape` writes is `%`, a hex digit, or an input character outside the class |
| Escaping.EscapeLength | src/util.ts:45-53 | `_escape` never shortens its input, and lengthens it when the first character is reserved |
| Escaping.EscapeIdentity | src/util.js:56-59 | `_escape` leaves a string unchanged exactly when the string has no character of the class |
| Escaping.EscapeHasNoSeparators | src/util.ts:56-59 | the output of `escape` holds no `;`, `,`, tab, `\n` or `\r`, and adds no white space |
| Escaping.ColumnKeepsSeparators | src/util.ts:67-70 | `escapeColumn` keeps `;`, `=`, `&` and `,`, while `escape` rewrites each of them |
| Escaping.EscapeColumnHasNoBreaks | src/util.js:67-70 | the output of `escapeColumn` holds no tab, `\n` or `\r` |
| Attributes.ParseAttributes | src/util.ts:78-114 | the object built clause by clause equals `AttributesOf`: empty for a missing, empty or `.` column, and `None` (the thrown `TypeError`) when a clause is tagged with an inherited property name |
| Attributes.ApplyClauses | src/util.js:83-102 | the `forEach` over the `;`-separated clauses builds exactly what `CollectOrThrow` describes, and ends with the `TypeError` at the first clause that throws |
| Attributes.ApplyClause | src/util.ts:89-112 | a clause that is empty, or has no non-empty second word, changes nothing; a new tag that names an inherited property throws; otherwise its values are appended to its trimmed tag, and the tag is created on first use |
| Attributes.StepCases | src/util.ts:99-111 | a clause that does not contribute changes nothing; one whose tag is not yet an own tag and names an inherited property throws; any other adds its values under its tag |
| Attributes.CollectOrThrowSpec | src/util.ts:99-111 | the clauses throw exactly when some contributing clause is tagged `constructor`, `toString`, `__proto__` or another inherited property name; otherwise the object is `Collect` of the clauses |
| Attributes.ThrowPersists | src/util.js:87-101 | once a clause has thrown, the rest of the clauses cannot undo it |
| Attributes.InheritedAbsent | src/util.js:93-97 | where no clause throws, no inherited property name becomes a tag of the object |
| Attributes.IndexOf | src/util.ts:99-103 | the tag lookup finds the first entry with that tag, or reports that no entry has it |
| Attributes.ParseClauseShape | src/util.js:88-100 | a clause that contributes has a non-empty tag and at least one value; under `src/util.js` it has exactly one value, with no `"` |
| Attributes.CollectWellFormed | src/util.ts:83-113 | whatever the column holds, the parsed object has distinct non-empty tags, each with at least one value; under `src/util.js` no value holds `"` |
| Attributes.CollectLookup | src/util.ts:104-111 | a tag's array holds the values of all clauses naming it, in clause order |
| Attributes.AddLookup | src/util.js:93-100 | adding values under a tag appends them to that tag's array and to no other |
| Attributes.CollectKeys | src/util.js:92-97 | tags come out in the order of their first clause, each once |
| Attributes.JsValuePerClause | src/util.js:100 | under `src/util.js` a tag holds exactly one value per clause naming it |
| Attributes.FormatAttributesColumn | src/util.ts:194-212 | the written column holds no tab or line break; it is `.` exactly for the empty object, and otherwise ends in `;` |
| Attributes.FormattedClauses | src/util.ts:85-88 | cutting the written column apart again gives the written `tag values` pairs, one per clause |
| Attributes.ParseFormattedClauseTs | src/util.ts:106-111 | a written pair reads back under `src/util.ts` as the same tag and values |
| Attributes.TsValuesOfFormatted | src/util.ts:107-110 | escaped values joined by `,` split, trim and unescape back to the values |
| Attributes.ParseFormattedClauseJs | src/util.js:89-100 | a written pair reads back under `src/util.js` as one value: the values joined by `,`, with quotes removed |
| Attributes.FormatParseTs | src/util.ts:203-211 | `parseAttributes(formatAttributes(m))` returns `m`, without throwing, for every object with plain tags (none an inherited property name) and plain values |
| Attributes.FormatParseJs | src/util.js:171-189 | under `src/util.js` the same round trip does not throw and collapses each tag's values into one; an object with one quote-free value per tag comes back unchanged |
| Attributes.FormattedNoThrow | src/util.ts:99-103 | no clause of a written column of plain tags is tagged with an inherited property name, so reading it back does not throw |
| Attributes.ReadBackClauses | src/util.ts:78-114 | parsing a written non-empty object does not throw: it gives the object built from the written clauses |
| FeatureParse.ParseFeature | src/util.ts:122-150 | the object filled field by field equals `FeatureOf(line)`; `None` where `parseAttributes` throws |
| FeatureParse.ParseColumns | src/util.js:112-131 | the column loop, with the first three columns unescaped, builds exactly the specified record, with start and end converted by `parseInt`; a throwing attributes column ends it with `None` |
| FeatureParse.FillRecord | src/util.ts:133-142 | the field loop and the `parseInt` of start and end fill exactly the specified record from the rewritten columns |
| FeatureParse.FeatureColumns | src/util.ts:125-142 | `parseFeature` throws exactly when `parseAttributes` of column 9 does; otherwise, column by column: `.` is `null`; the first three columns are unescaped, and one that unescapes to `.` is `null`; start and end are base-10 integers; score, strand and frame keep their text; column 9 is `parseAttributes` of it; nothing else is set |
| Directives.NonSpaceRun | src/util.ts:159 | `(\S+)` is the longest prefix without white space |
| Directives.UpToLineEnd | src/util.js:140 | `(.*)` is the longest prefix without a line terminator |
| Directives.MatchShape | src/util.ts:159-163 | a match has a non-empty name without white space, and contents without a line break that do not start with white space |
| Directives.ParsedDirectiveShape | src/util.ts:158-187 | a parsed directive has a non-empty name without white space, and a value only when text follows, never holding a line break; `sequence-region` start and end are digits only |
| Directives.Extend | src/util.js:153-161 | the fields added for `sequence-region` and `genome-build` keep the name and the value |
| Directives.ExtendRegionDigits | src/util.js:153-158 | `sequence-region` start and end keep only the digits of their words |
| Directives.DirectiveRoundTrip | src/util.ts:283-290 | `parseDirective(formatDirective(d))` gives back the name, and the value when it was truthy |
| Directives.MatchFormatted | src/util.js:259-264 | the line `formatDirective` writes matches the directive pattern with exactly that name and value |
| Directives.SequenceRegionRoundTrip | src/util.ts:175-179 | `##sequence-region id start end` reads back with `seq_id`, `start` and `end` |
| Directives.GenomeBuildRoundTrip | src/util.js:159-161 | `##genome-build source name` reads back with `source` and `buildname` |
| Directives.CommentIsNoDirective | src/util.ts:299-301 | a written comment is never read as a directive |
| Directives.CommentLines | src/util.js:273-275 | a comment is written as the one line `# comment` |
| Directives.SequenceLines | src/util.ts:309-313 | a sequence is written as two lines: `>id`, with the description when truthy, then the sequence |
| FeatureFormat.Seen.constructor | src/util.js:249 | each `formatFeature` call starts with no line seen |
| FeatureFormat.FormatSingleFeature | src/util.ts:216-248 | the nine columns are written joined by tabs; the line is returned and recorded unless it was seen before, in which case `''` is returned |
| FeatureFormat.FormatFeatureWalk | src/util.ts:250-264 | a feature, then its children, then its derived features (or an array, item by item) write the not-yet-seen lines of that walk, in order; every line of the walk becomes seen |
| FeatureFormat.FormatEach | src/util.js:232-238 | mapping `_formatFeature` over an array with one shared `seen` writes the array's unseen lines, in order |
| FeatureFormat.FormatFeature | src/util.ts:272-275 | `formatFeature` returns the de-duplicated lines of the feature tree |
| FeatureFormat.DedupAppend | src/util.js:226-240 | de-duplicating two walks in a row de-duplicates the second against everything seen in the first |
| FeatureFormat.DedupSpec | src/util.js:216-223 | the lines written are distinct, none was seen before, and every unseen line of the walk is among them |
| FeatureFormat.DedupFirst | src/util.ts:240-247 | it is the first occurrence of a line that is kept |
| FeatureFormat.RepeatedFeature | src/util.js:248-251 | the same feature twice in an array is written once |
| FeatureFormat.FieldsTabFree | src/util.ts:222-236 | every column but the strand is free of tabs |
| FeatureFormat.RowColumns | src/util.js:193-214 | a written line splits on tabs into exactly its nine columns when the strand holds no tab |
| FeatureFormat.EscapeIsDot | src/util.ts:232-233 | an escaped column is `.` only when the value is `.` |
| FeatureFormat.ColumnReadsBack | src/util.js:199-211 | each of the eight columns of a canonical feature (start and end below 2^53) reads back as it was written |
| FeatureFormat.AttributesReadBack | src/util.js:194-197 | a canonical feature's attribute column reads back, without throwing, as its attribute object |
| FeatureFormat.FormatParseFeature | src/util.ts:216-238 | `parseFeature` of the line written for a canonical feature returns that feature, without throwing |
| ItemFormat.FeatureItemRoundTrip | src/util.ts:323-325 | a canonical feature item is written as its one line, which reads back, without throwing, as the feature |
| ItemFormat.DirectiveItemRoundTrip | src/util.js:297-298 | a directive item is written by `formatDirective`, and reads back with its name and truthy value |
| ItemFormat.SequenceItemLines | src/util.js:283-287 | a sequence item is written as its two FASTA lines |
| ItemFormat.CommentItemLine | src/util.js:300 | a comment item is written as one line that is not a directive |
| ItemFormat.InvalidItemCases | src/util.ts:322-336 | the invalid-item line is written exactly when the item is none of the four kinds; a directive or sequence never gets it |
| ItemFormat.SingletonArrayItem | src/util.ts:338-341 | an array holding one object is written exactly as that object alone |
| ItemFormat.ArrayItemCommas | src/util.ts:338-341 | where the strings of an array of two items are concatenated, a comma stands between their texts |
| ParseOptions.ProcessParseOptions | src/api.js:19-39 | the four parse flags are always present, an explicit `undefined` or `null` included; `parseAll` switches all four on |
| ParseOptions.DefaultOptions | src/api.js:21-26 | with no options, features and sequences are reported, directives and comments are not |
| ParseOptions.ParseAllReportsEverything | src/api.js:31-36 | with `parseAll`, every kind of item is reported whatever the other flags say |
| ParseOptions.ExplicitFlagWins | src/api.js:20-29 | without `parseAll`, a flag the caller gives, `undefined` and `null` included, wins over every default, and one only the additional defaults give wins over the built-in default |
| ParseOptions.NullishFlagSwitchesOff | src/api.js:53-56 | without `parseAll`, a flag given as `undefined` or `null` switches its kind off, features and sequences included |
| ParseOptions.ProcessIdempotent | src/api.js:20-38 | processing processed options again changes nothing, unless `parseAll` came only from the additional defaults |
| LineTransform.GtfTransform.constructor | src/api.js:42-60 | the options are processed, the encoding defaults to `utf8`, and the buffer starts empty, with no line limit |
| LineTransform.GtfTransform.AddLine | src/api.js:62-67 | a non-empty line is passed to the parser; an empty one is not |
| LineTransform.GtfTransform.NextText | src/api.js:69-79 | the last piece of the split text becomes the buffer; an over-long buffer emits an error and passes no line; otherwise the non-empty complete lines are passed in order |
| LineTransform.GtfTransform.Transform | src/api.js:81-84 | a chunk is fed to the line splitting |
| LineTransform.GtfTransform.Flush | src/api.js:86-91 | the rest is split, the remaining fragment is passed on, and the parser is finished |
| LineTransform.FeedStep | src/api.js:70-71 | one more chunk turns the state for the text so far into the state for the longer text |
| LineTransform.FeedAllLines | src/api.js:69-84 | without a line limit, the lines passed on do not depend on how the text was cut into chunks |
| LineTransform.FlushedLines | src/api.js:86-91 | after the flush the parser has been given exactly the non-empty lines of the whole text, with no error |
| LineTransform.FlushFragment | src/api.js:87-88 | a final fragment without a line break is passed on when it is not empty |
| LineTransform.WithinLimit | src/api.js:73-76 | while no error was emitted, a line limit changes nothing, and the buffer is within the limit |
| LineTransform.PiecesRebuildText | src/api.js:70 | the pieces of the split, with the removed line breaks put back, are the text |
| JsString.SplitLinesAppend | src/api.js:70-71 | the lines of `x + y` are the complete lines of `x`, followed by the lines of its trailing fragment extended with `y` |
| JsString.LastNoNewline | src/api.js:71 | the buffered fragment never holds `\n` |
| FormatStream.Sequences | src/api.js:180-181 | every item sorted into the sequences has a truthy `sequence` |
| FormatStream.Others | src/api.js:182 | no item sorted into the others has a truthy `sequence` |
| FormatStream.FormatSync | src/api.js:176-190 | the one-pass sort gives the others formatted in order, then `##FASTA` and the sequences when there are any |
| FormatStream.SortedIsPartition | src/api.js:178-183 | together, the sequences and the others are exactly the items, as a multiset |
| FormatStream.FastaSectionWhenSequences | src/api.js:185-188 | the FASTA section is written exactly when some item has a sequence |
| FormatStream.NoSequencesInOrder | src/api.js:184 | without sequences, every item is formatted in the order given |
| FormatStream.FormattingTransform.constructor | src/api.js:193-200 | the minimum is `minSyncLines` when it is truthy, else 100; version insertion is off unless asked for; all counters start at zero |
| FormatStream.FormattingTransform.Transform | src/api.js:202-239 | one chunk pushes the optional version directive, the optional `##FASTA`, its text and the optional `###`, and updates the state as the specification step says |
| FormatStream.CountLineBreaks | src/api.js:229-234 | the counting loop returns the number of `\n` in the text |
| FormatStream.BlockContents | src/api.js:206-223 | one chunk's pushes hold the version directive and `##FASTA` once each when they happen, and its text as the only text |
| FormatStream.RunEmitted | src/api.js:237 | data has been emitted exactly when some chunk came through |
| FormatStream.RunVersion | src/api.js:206-211 | over a stream, the version directive is pushed once, first, exactly when asked for and the first chunk is not a `gff-version` directive |
| FormatStream.RunFasta | src/api.js:215-218 | `##FASTA` is pushed once exactly when some chunk is a sequence, and FASTA mode is then on |
| FormatStream.RunTexts | src/api.js:220-223 | the texts pushed are the chunks' texts, one per chunk, in order |
| FormatStream.SpacedMeans | src/api.js:225-227 | the spacing invariant says of every `###` that at least the minimum number of lines precede it since the previous mark |
| FormatStream.BlockSpaced | src/api.js:225-234 | one chunk keeps the counter equal to the line breaks since the last mark, and keeps the marks spaced |
| FormatStream.RunSpaced | src/api.js:225-235 | over a whole stream, the counter is the number of lines since the last `###`, and every `###` follows at least the minimum number of lines |

## Left out

- The `Parser` of `./parse`, which the transforms feed, is not part of this model. The model records the lines handed to it and whether it was finished.
- `parseStream`, `parseFile`, `parseStringSync`, `formatStream`, `formatFile` and the command-line tool are left out. They are stream and file plumbing.
- `StringDecoder` is left out. Chunks are taken as already-decoded text, so `decoder.end()` is the empty string.
- The `process.nextTick` callbacks are left out: they are scheduling, not data.
- The push of the parsing transform is modelled by the flags its callbacks are set from (`Reported`). The objects the parser would push are not modelled.
- `parseFeature` converts `score` with `parseFloat`. The model keeps the column text, because floating point is not modelled.
- `parseFeature` on start and end columns that are not digit strings (where `parseInt` gives `NaN` or a prefix) is excluded by the precondition `Parsable`.
- `parseFeature` on lines with fewer than nine columns is also excluded by `Parsable`.
- FeatureParse.ParseFeature: the in-place rewrite of the column array and of `parsed` is modelled on sequence and record values. There is no aliasing to observe.
- The array branch of `formatItem` in `src/util.js` is left out. It uses the external `typical.isArrayLike` and `Array.map`.
- Key order is modelled as insertion order. JavaScript lists integer-like keys first; that ordering is left out.
- `null` and `undefined` properties of an item are both `None`. A JavaScript property that holds something other than a string, a number, an attribute object or an array of items is left out.
- Directives.FormatDirective, Directives.FormatComment, Directives.FormatSequence: a `null` directive, value, comment, id or sequence is written as `undefined`, where the template literal writes `null`; only an unset property prints `undefined`. The two are one `None` in the item model.
- Escaping.Unescape: `unescape(undefined)` returns the string `undefined` in both variants. Its only caller, `parseFeature` on a line of at least nine columns, passes strings and `null`, so `None` stands for `null` alone and the undefined case is not modelled.
- FeatureColumns: start and end are exact integers. `parseInt` returns a double, which rounds a column of more than 15 or 16 digits (from 2^53 on); that rounding is not modelled.
- Items.ValueText: a number is written as plain decimal digits. `String` writes a double from 10^21 on in exponent form, and non-integral numbers with a fraction; neither is modelled. The round-trip lemmas bound start and end below 2^53 (`PositionField`), where both agree.
- ParseAttributes: the `TypeError` thrown for a tag named like an inherited `Object.prototype` property is modelled as `None`, without its message. The names are those of `Object.prototype` in current engines.
- Lengths are counted in characters, not UTF-16 code units. Characters above U+00FF are never escaped, as in the source.
- `formatAttributes` on values that are not arrays of strings (objects with their own `toString`, objects with a `values` array, scalars) is left out. Parsed objects always hold arrays of strings.
- `maxLineLength` is never assigned by the source's constructor. The model starts it as absent, and the lemmas show what a limit would change.
- `additionalDefaults.parseAll` is copied into the processed options but not applied; the model shows exactly that in `ProcessIdempotent`.
- FormatStream.FormattingTransform.constructor: a negative or non-integral `minSyncLines` is not modelled; the option is a natural number or absent.
- FormatStream.FormattingTransform.Transform: a chunk is seen through its `View` (leading directive, truthy `sequence`, formatted text). The whole-stream lemmas are about the `Run` fold of those views. No method loop drives the class over a stream, because the stream plumbing is left out.
- The strand column is written without escaping, as in the source. The round-trip lemmas therefore require a strand without tabs.
