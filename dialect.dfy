/**
 * The repository ships the utility functions twice, in two variants that
 * differ in a few places: `src/util.ts` and `src/util.js`. Operations whose
 * behaviour differs take the variant as a parameter.
 */
module Dialects {

  datatype Dialect =
    | TsUtil  // src/util.ts: fields seq_name, featureType, frame; attribute values split on `,`, quotes kept
    | JsUtil  // src/util.js: fields seq_id, type, phase; one value per clause, every `"` removed
}
