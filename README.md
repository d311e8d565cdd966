# A verified model of the iwarship-anylize table engine

iwarship-anylize downloads World of Warships game data as JSON records. It turns them into
one CSV file per category. This project models the part that does the turning, together
with the two small parsers around it:

- **the table engine** (`lib/csv-writer.js`):
  - `getNestedValue` walks a record along a `.`-separated path;
  - `transformRecord` evaluates each column expression of a category mapping against a raw
    record. It knows three forms: a parenthesised `+` concatenation, a `|` form that looks
    for a quoted `"(…)"` group, and a plain path;
  - three substitution passes: `applyEnumMappings` (fixed tables for ship type, group and
    nation), `replaceNames` (the name table) and `replaceI18n` (i18n tokens, a standalone
    function that `generateCSV` never calls);
  - `generateCSV` up to the row matrix given to `csv-stringify`;
  - `writeCSV` and `writeAllCSVs`, with their success and failure accounting;
- **the session cookie** (`lib/cookie.js`): `parseEncodedCookie`, `stringifyCookie`,
  `isValidCookie` and `needsReLogin`;
- **the command line** (`fetch-data.js`): `parseArgs`.

## How the model is built

- **JSON values.** Parsed JSON is `Json.Value`. It keeps `undefined` (a missing property)
  apart from `null`, because the program treats them differently. `Json.Get` is property
  access, `Json.Truthy` is JavaScript truthiness and `Json.ToText` is `String(v)`.
- **Things the engine does not define.** The text of a number and `JSON.stringify` come in
  as a `Json.Host` parameter.
- **Ordered objects.** A category mapping, the batch `allData` and the cookie jar are
  ordered lists of pairs, kept in `Object.entries` order. Transformed records are maps,
  because no modelled behaviour depends on the order of their fields.
- **Loops.** Where the source loops and updates variables, the model has a `method` with
  the same loop. Its postcondition ties the result to a specification function, and the
  properties are proved as lemmas about that function:
  - `GetNestedValue` and `Walk`;
  - `TransformRecord` and `Transformed`;
  - `ReplaceNames` and `Renamed`;
  - `ReplaceI18n` and `I18nReplaced`;
  - `GenerateCsv` and `GeneratedRows`;
  - `WriteAllCsvs` and `Tally`;
  - `ParseEncodedCookie` and `ParseCookie`;
  - `ParseArgs` and `ParseArgsOf`.
- **Exceptions.** A throw that escapes a function is an outcome value:
  - `Completion.Threw` in `replaceI18n`;
  - `CsvOutcome.Raised` in `generateCSV`, which `writeCSV` catches and reports as failure.
- **Outside effects.** File reads, `csv-stringify`, `path.join` and `writeFileSync` are the
  fields of `CsvWriter.Env`. Help (`-h`) is the outcome `Args.Help` rather than a process
  exit.

Details of the code that the model follows literally:

- The concatenation form deletes every `.` and every white-space character from each part,
  then looks the result up as one top-level key. So `(.hull + .upgrade.air)` reads
  `record["hull"]` and `record["upgradeair"]`, not `record.upgrade.air`. The comment at
  lib/csv-writer.js:81 suggests the nested field was meant.
- The concatenation form leaves its column absent when no `(…)` group matches, for example
  `()`. So a transformed record's keys are a subset of the mapping's columns, not always
  all of them.
- A plain path such as `.a.b` gives `null` when a value with keys still to read is null
  or undefined, as when `a` is missing. It gives `undefined` when the last key `b` is
  missing from an existing `a`, and the stored value, null included, when `b` is present.
  Null and undefined both print as an empty cell.
- The plain form and the `|` fallback drop the first character of the expression, whatever
  it is.
- The `|` form does not strip a leading `.` from the captured field. `".a"` is therefore
  split into the keys `""` and `a`.
- `replaceI18n` throws in two cases:
  - the `i18nkey` path is truthy but not a string, and there is at least one record;
  - a token in the token array is not a string.
- `generateCSV` returns "" for falsy data and for any value whose `length` is 0, including
  an object with `length: 0`. Any other non-array data makes `data.map` throw.

## Model

| member | source | states |
|---|---|---|
| NestedValue.GetNestedValue | lib/csv-writer.js:130-142 | the loop returns the walk of the `.`-split path: null once the current value is null or undefined with keys left, else the last lookup, which may be undefined |
| NestedValue.WalkAppend | lib/csv-writer.js:130-142 | walking keys `a + b` is walking `b` from where walking `a` ends |
| NestedValue.DottedPath | lib/csv-writer.js:130-142 | a path made of dot-free keys joined with "." is walked one key at a time, in order |
| NestedValue.SingleKey | lib/csv-writer.js:130-142 | a path without "." is one top-level lookup; null when the object itself is null or undefined |
| NestedValue.TwoKeys | lib/csv-writer.js:130-142 | `a.b` is null when the object or its `a` is null or undefined, and otherwise the object's `a` then `b`, possibly undefined |
| Expressions.FindGroupSpec | lib/csv-writer.js:78 | the group search has leftmost-match semantics: it returns the capture of the first position where `open [^)]+ close` matches, and nothing when no position matches |
| Expressions.Columns | lib/csv-writer.js:281 | the header never holds `i18nkey`, holds every other mapping key, and holds nothing else |
| CsvWriter.ColumnsInOrder | lib/csv-writer.js:281 | the header is the keys of the non-`i18nkey` mapping entries, in declaration order |
| CsvWriter.ColumnsDistinct | lib/csv-writer.js:281 | with the distinct keys of a mapping object, each column appears once in the header |
| Expressions.Concatenate | lib/csv-writer.js:83-92 | the accumulating loop yields the parts' texts concatenated left to right, with null and undefined parts giving "" |
| Expressions.EvaluateColumn | lib/csv-writer.js:74-118 | one column's `try` block computes the value of the column's expression, or leaves the column unset |
| Expressions.TransformRecord | lib/csv-writer.js:67-122 | the loop over the mapping stores each evaluated column, in mapping order |
| Expressions.CleanPartOfTrimmed | lib/csv-writer.js:82-87 | trimming a part, then deleting its dots, then its white space, deletes every dot and white-space character of it |
| Expressions.PartIsTopLevelKey | lib/csv-writer.js:85-91 | each concatenation part is looked up as one top-level key: the part without dots and white space |
| Expressions.ConcatFormTexts | lib/csv-writer.js:82-92 | the concatenation is the texts of those top-level keys, left to right |
| Expressions.ParenGroupWhole | lib/csv-writer.js:78 | in `(inner)` with no ")" inside `inner`, the first group is `inner` |
| Expressions.ConcatForm | lib/csv-writer.js:76-95 | `(p1 + p2 + …)` always stores a string: the texts of the top-level keys the `+` pieces name, so `.upgrade.air` reads the key `upgradeair` |
| Expressions.EmptyParenthesesLeaveColumnUnset | lib/csv-writer.js:76-95 | `()` has no group with at least one character, so the column is left unset |
| Expressions.QuotedGroupFront | lib/csv-writer.js:98 | a `"(field)"` at the front of an expression is the quoted group found |
| Expressions.PipeForm | lib/csv-writer.js:96-108 | an expression with a "\|", not of the concatenation shape, whose first `"(…)"` group (wherever it stands) captures a field, resolves that field with its quotes deleted and without stripping dots; an array result is joined with "\|", any other value is stored unchanged |
| Expressions.FirstGroupFound | lib/csv-writer.js:98 | the group search returns the first match, whatever text precedes it |
| Expressions.FirstGroupUnique | lib/csv-writer.js:98 | a text has at most one first match: the leftmost start, ended at the first ")" after it |
| Expressions.PipeFallback | lib/csv-writer.js:95-111 | an expression with a "\|", not of the concatenation shape, and with no `"(…)"` group anywhere is read as the dotted path after its first character |
| Expressions.PlainForm | lib/csv-writer.js:112-115 | an expression with no "\|" and not of the concatenation shape drops its first character, whatever it is (including a "(" when the text does not end in ")"), and walks the rest key by key |
| Expressions.AssembleKeys | lib/csv-writer.js:68-121 | storing columns with distinct keys: a key is present exactly when its column stored a value, and then it holds that value |
| Expressions.TransformedColumns | lib/csv-writer.js:67-122 | a transformed record never holds `i18nkey`, holds only mapping keys, and holds a column exactly when its expression stores a value, with that value |
| Expressions.NonStringExpressionGivesNull | lib/csv-writer.js:74-118 | a mapping value that is not a string makes that column, and only that column, null |
| Substitution.ShipTypesShape | lib/csv-writer.js:214-220 | every ship-type key starts with an ASCII character and every translation starts with a character outside ASCII |
| Substitution.GroupsShape | lib/csv-writer.js:227-239 | every group key starts with an ASCII character and every translation starts with a character outside ASCII |
| Substitution.NationsShape | lib/csv-writer.js:246-260 | every nation key starts with an ASCII character and every translation starts with a character outside ASCII |
| Substitution.WideValuesAreNotKeys | lib/csv-writer.js:214-260 | tables of that shape never map to one of their own keys |
| Substitution.EnumPassFrame | lib/csv-writer.js:210-267 | the pass keeps every key and changes only `舰种`, `类型` and `国家`; each of those is translated from its own unmodified value exactly when that value is truthy and its text is a key of its table with a non-empty translation |
| Substitution.EnumColumnStable | lib/csv-writer.js:222-224 | a column that has already been translated is not translated again |
| Substitution.EnumPassIdempotent | lib/csv-writer.js:210-267 | the pass is idempotent when no table maps to one of its own keys |
| Substitution.EnumMappingsIdempotent | lib/csv-writer.js:210-267 | `applyEnumMappings` is idempotent |
| Substitution.BattleshipTranslated | lib/csv-writer.js:214-224 | a `Battleship` ship type becomes `战列舰` |
| Substitution.RenameRecord | lib/csv-writer.js:153-165 | the loop over a copy of the record rewrites each field from the value it held when the loop started |
| Substitution.ReplaceNames | lib/csv-writer.js:149-167 | one renamed record per input record, in order |
| Substitution.NameForSpec | lib/csv-writer.js:156-162 | a non-empty string whose lower-cased text has a truthy entry with a truthy `zh` becomes that `zh`; a value that changes had such an entry; a value that is not a non-empty string is kept |
| Substitution.YamatoRenamed | lib/csv-writer.js:153-165 | a record holding `Yamato` gets the `zh` of the `yamato` entry |
| Substitution.NameIgnoresCase | lib/csv-writer.js:158-159 | a string and its lower-cased form find the same entry |
| Substitution.RenamedIsFieldwise | lib/csv-writer.js:153-165 | keys are kept, and changing one input field changes only that output field |
| Substitution.OverwriteMatching | lib/csv-writer.js:192-196 | for one token, every field holding a string that contains the token takes the i18n text; other fields are kept |
| Substitution.ReplaceRecordI18n | lib/csv-writer.js:181-202 | one record: the token array is read from the unmodified record at the path with only its first "." removed; anything but a non-empty array leaves the record as it is; tokens apply in order |
| Substitution.ReplaceI18n | lib/csv-writer.js:175-203 | a falsy `i18nkey` returns the records; a non-string path throws when there is a record; otherwise a record that throws makes the whole call throw |
| Substitution.TokensThrowIff | lib/csv-writer.js:188-189 | the token list throws exactly when one of its tokens is not a string |
| Substitution.TokensFromI18n | lib/csv-writer.js:187-198 | applying tokens keeps the keys, and each field ends up holding its original value or an i18n text |
| Substitution.TokensCompose | lib/csv-writer.js:188-198 | tokens apply in array order: `a + b` is `a`, then `b` on what `a` left |
| Substitution.LaterTokenSeesEarlierText | lib/csv-writer.js:188-198 | a later token sees the i18n text an earlier token wrote into a field |
| Substitution.I18nReplacedShape | lib/csv-writer.js:175-203 | a falsy `i18nkey` returns the input; a successful call returns one record per input record, with the same keys, holding only original values or i18n texts |
| CsvWriter.Row | lib/csv-writer.js:296-305 | a row is as wide as the header |
| CsvWriter.TransformAll | lib/csv-writer.js:284 | one transformed record per raw record, in order |
| CsvWriter.PushRows | lib/csv-writer.js:289-307 | the output is the header followed by one row per record, in order |
| CsvWriter.GenerateCsv | lib/csv-writer.js:275-307 | the row matrix of the three stages: transform, then enum tables, then names |
| CsvWriter.GeneratedRowsShape | lib/csv-writer.js:275-307 | falsy data or data of length 0 gives nothing; a non-empty array gives the header (mapping order, no `i18nkey`) plus one row per record, each as wide as the header; anything else throws |
| CsvWriter.PreparedField | lib/csv-writer.js:284-286 | a cell's value is the transformed value, put through its enum table for the three enum columns, then through the name table |
| CsvWriter.UnsetColumnEmptyCell | lib/csv-writer.js:295-305 | a column the transformation leaves unset gives an empty cell |
| CsvWriter.WriteCsv | lib/csv-writer.js:320-341 | reports failure for no data, for a throw, and for empty CSV text; otherwise it reports the write's outcome for the BOM followed by the CSV text |
| CsvWriter.CsvWrittenMeans | lib/csv-writer.js:320-341 | success exactly when `generateCSV` returns rows, their CSV text is not empty and the write of the BOM plus that text to the given path succeeds; success needs a non-empty array of records |
| CsvWriter.WriteAllCsvs | lib/csv-writer.js:349-380 | a missing mapping or a failed write counts as a failure and the loop goes on |
| CsvWriter.Positions | lib/csv-writer.js:356-377 | the positions of the set flags, in increasing order, and all of them; applied to each category's written flag it lists the categories written |
| CsvWriter.CountedAccounts | lib/csv-writer.js:349-380 | counting flagged items as written and the rest as failed counts every item once, and the written paths are those at the set flags, in order |
| CsvWriter.TallyAccounts | lib/csv-writer.js:349-380 | `success + failed` is the number of categories, `files` has `success` entries, and `files` holds the output paths of exactly the written categories, in category order |
| Cookie.Put | lib/cookie.js:34 | assignment sets the name, keeps every other name's value, keeps names unique, and appends a new name at the end |
| Cookie.ParseEncodedCookie | lib/cookie.js:18-40 | the loop over the `;` pieces builds the parsed jar |
| Cookie.EntryShape | lib/cookie.js:26-35 | a piece yields a non-empty name with no "=" and no leading white space; a piece without ";" yields a name and a value without ";" |
| Cookie.ParsePiecesWellFormed | lib/cookie.js:23-37 | pieces without ";" give a jar whose names are unique and non-empty and hold neither "=" nor ";", and whose values hold no ";" |
| Cookie.ParseCookieWellFormed | lib/cookie.js:18-40 | any header parses to such a jar |
| Cookie.ParsePiecesLastWins | lib/cookie.js:25-37 | a name given more than once has the value of its last piece |
| Cookie.AppendedPieceWins | lib/cookie.js:18-40 | appending `;name=value` to any header sets `name` to `value` |
| Cookie.Pairs | lib/cookie.js:48-49 | one `name=value` text per entry |
| Cookie.PairEntry | lib/cookie.js:26-32 | a written pair, with or without a leading space, reads back as the same entry |
| Cookie.ParseWrittenPieces | lib/cookie.js:25-37 | pieces that each read back as one entry of a jar with unique names rebuild that jar |
| Cookie.StringifyAsPieces | lib/cookie.js:47-51 | the header is the pairs joined with ";", every pair after the first with a space in front |
| Cookie.ParseStringifyRoundTrip | lib/cookie.js:18-51 | parsing the written header gives back the jar when names are unique and non-empty and hold no "=", ";" or leading white space, and values hold no ";" or trailing white space |
| Cookie.IsValidCookieSimplified | lib/cookie.js:79-85 | a jar is valid exactly when some name contains `wordpress_logged_in` or `session` |
| Cookie.NeedsReLoginSpec | lib/cookie.js:93-105 | a new login is needed exactly when the response URL contains `/login` or the status is 401 or 403; the `url` argument has no effect |
| Args.ParseArgs | fetch-data.js:54-87 | the loop, which moves one further when a flag takes a value, computes the parse outcome |
| Args.Scanned | fetch-data.js:62-84 | the positions the loop reads as flags lie within the argument list |
| Args.ParseStep | fetch-data.js:62-84 | a help flag ends the loop with help; any other argument moves it on by one, or by two when `-c`/`-o` has a value after it, with the options updated |
| Args.HelpIff | fetch-data.js:65-68 | the outcome is help exactly when `-h` or `--help` is read as a flag |
| Args.VerboseIff | fetch-data.js:70-73 | verbose is on exactly when `-v` or `--verbose` is read as a flag |
| Args.ValueNotScanned | fetch-data.js:75-83 | a value taken by `-c` or `-o` is never read as a flag |
| Args.LastCookieWins | fetch-data.js:75-78 | the cookie file is the value after the last `-c`/`--cookie` that has one, or the default when there is none |
| Args.LastOutputWins | fetch-data.js:80-83 | the output directory is the value after the last `-o`/`--output` that has one, or the default when there is none |
| Args.CookieFlagTakesFlagLikeValue | fetch-data.js:75-78 | `-c -v` sets the cookie file to `-v` and leaves verbose off |
| Args.NoArguments | fetch-data.js:56-60 | no arguments give `cookie.txt`, `data` and verbose off |

## Left out

- lib/fetcher.js is not part of this model. It is the HTTPS client, with timeouts, retries,
  sleeps and a progress bar.
- `main` and `showHelp` in fetch-data.js are not modelled. They are console output,
  directory creation and process exit. Help is the outcome `Args.Help` instead.
- `loadCookie` (lib/cookie.js:59-72) only reads a file and calls `parseEncodedCookie`.
- `loadMapping` and `loadPresets` read files and keep module-level caches. In the model:
  - the mapping of a category is the oracle `Env.loadMapping`;
  - the name and i18n tables are parameters.
  A mapping file whose JSON is truthy but not an object is not modelled.
- A preset file whose JSON is not an object is not modelled, because the tables are maps.
  For example, a name file holding `null` leaves the name cache null. Then `nameCache[…]`
  (lib/csv-writer.js:158) throws for the first non-empty string field, and `writeCSV`
  returns false.
- `csv-stringify` is the oracle `Env.csvText`. The model stops at the row matrix and claims
  nothing about quoting.
- These engine conversions are parameters (`Json.Host`):
  - `String(n)` for numbers;
  - `JSON.stringify`.
  `Array.prototype.join` is modelled on top of them.
- Numbers are reals. NaN, -0 and the infinities are not modelled.
- `toLowerCase` is modelled on ASCII letters only. `trim` and `\s` use the full ECMAScript
  white-space set.
- JavaScript object quirks are not modelled:
  - inherited properties such as `constructor` in table lookups;
  - the reordering of integer-like keys by `Object.entries`;
  - properties of string primitives, such as `length` and indices (`Json.Get` gives
    undefined on any value that is not an object or an array).
- Records given to `replaceNames` and `replaceI18n` are objects. A primitive spread into
  `{ ...record }` is not modelled.
- The `await` on `setImmediate` in `writeAllCSVs` is not modelled. It has no effect on a
  sequential model.
- Console messages are not modelled. A `writeFileSync` that throws is the oracle
  `Env.writeFile` returning false.
- `needsReLogin` reads only `url` and `status` of the response. Both are modelled as
  present.
- ShipTypesShape, GroupsShape, NationsShape: only the first character of each key and each
  translation is checked, because that is all idempotence needs; checking every character
  of every literal makes the proofs far more expensive.
- Strings are sequences of Unicode scalar values, not UTF-16 code units. So `jqPath.slice(1)`
  (lib/csv-writer.js:110, 114) on a first character outside the Basic Multilingual Plane
  drops the whole character instead of half of it.
- An object with its own `toString` property that is not a function makes `String(val)`
  (lib/csv-writer.js:90) throw, and the `catch` stores null for that column. The model
  gives every object the text `"[object Object]"` and never throws there.
- The same `toString` case makes `val.join('|')` (lib/csv-writer.js:105) throw when an
  array element is such an object; the `catch` then stores null for the column. The model
  joins the element as the text `"[object Object]"`.
- The lookups `shipTypes[…]`, `groups[…]` and `nations[…]` (lib/csv-writer.js:222, 241,
  262) convert the value to a property key. An object with a non-function `toString` makes
  that conversion throw outside any `catch` of `generateCSV`, so `writeCSV` catches it
  and returns false for that category. The model compares by text, never throws, and
  keeps the category.
- A cookie named `__proto__` is not stored by `cookies[key] = value` (lib/cookie.js:34);
  the assignment changes the prototype of the result instead. The model stores it as any
  other name.
