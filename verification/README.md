# azure-pdftools: the `mutool` adapter's parser and completion logic, in Dafny

`lib/pdftools.js` wraps the `mutool` command-line tool. It does two things
that can be written down as logic:

- `parse`, `formatKey` and `formatValue` turn the tool's text report into a
  metadata record.
- `mutool.prototype.exec` decides how the promise it returns settles. The
  decision depends on what the child process handed to its callback.

This project models both as pure functions over `seq<char>`. It proves what
they promise.

Modules:

- `Wrappers` (`wrappers.dfy`): `Option` and `Result`.
- `JsText` (`js_text.dfy`): the JavaScript string built-ins the parser calls.
  These are the `\s` class, `toLowerCase`, `replace(/c/g, '')`, `trim`,
  `slice`, `split` on one character (with `join` as its inverse) and
  `includes`. Each one is stated with its defining property.
- `JsNumber` (`js_number.dfy`): `parseInt` without a radix. It skips leading
  white space, reads an optional sign and then an optional `0x` prefix. It
  then reads the longest run of digits. `NaN` is `None`. The decimal numeral
  `ShowInt` is its partner.
- `Metadata` (`metadata.dfy`): the `:\s+` line split, `formatKey`,
  `formatValue` and `parse`. The record is a `map<string, Value>`.
- `Mutool` (`mutool.dfy`): the command line `exec` builds and the callback's
  classification. The child process is a parameter, a function from the
  command line to `(err, stdout, stderr)`.
- `ReportExamples` (`report_examples.dfy`): whole reports and whole process
  results, as the tool writes them.

What the code does, as modelled:

- Only two keys can ever reach the record. `dimensions` holds an array of
  strings. `pages` holds a non-zero integer.
- `formatValue` returns `null` for every other key. The truthiness test in
  `parse` then drops that line.
- A `pages` value that `parseInt` reads as `0` or `NaN` is dropped too.
- An empty report gives no record (`undefined`). A non-empty report can
  give the empty record `{}`.

Some descriptions of this adapter promise more than the code does. The model
follows the code:

- There is no generic coercion. `no` does not become `false`, `none` does not
  become `null`, and numerals under other keys are not turned into numbers.
  Lines such as `Title:` and `Tagged:` are dropped.
- There is no `creationdate`/`created` rename and no `moddate`/`modified`
  rename.
- There is no strictness flag. Empty output resolves to `null`, not to an
  error or `{}`. The `errors` field is set but never read.
- `pages: 0` is dropped, not kept. After an earlier non-zero `pages` line it leaves that earlier count in place.
- A `1(10r)` line whose value is not bracketed is dropped. Its key is kept
  and `formatValue` gives it `null`.
- A raw key that already normalizes to `dimensions` gets the array coercion
  without any bracket test. `formatValue` only looks at the key.
- `parseInt` is called without a radix, so `pages: 0x1A` reads as 26.

## Model

| member | source | states |
|---|---|---|
| Metadata.KeyValueIff | lib/pdftools.js:107-109 | segments 0 and 1 of `line.split(/:\s+/)` are exactly the key and value of the line's unique frame: separator-free key, colon, maximal white-space run, separator-free value, then the end of the line or the next separator (later segments ignored) |
| Metadata.KeyValueNone | lib/pdftools.js:107-111 | a line has no value segment exactly when no colon in it is followed by white space |
| Metadata.NormalizeKey | lib/pdftools.js:132 | the normalized key has no white space and no ASCII upper-case letter, and is no longer than the raw key |
| Metadata.NormalizeKeyIdempotent | lib/pdftools.js:132 | normalizing a normalized key changes nothing |
| Metadata.NormalizeKeyAppend | lib/pdftools.js:132 | normalization works character by character: it distributes over concatenation |
| Metadata.NormalizeKeyChar | lib/pdftools.js:132 | each white-space character is dropped and every other character is lower-cased |
| Metadata.FormatKeyRename | lib/pdftools.js:131-148 | the key differs from its normalized form exactly when that form is `1(10r)` and the trimmed value starts with `[` and ends with `]`; the only other result is `dimensions` |
| Metadata.FormatValue | lib/pdftools.js:158-174 | an array comes back exactly for `dimensions`, a number or `NaN` exactly for `pages`, and `null` exactly for every other key |
| Metadata.FormatValueIgnoresCR | lib/pdftools.js:162-170 | carriage returns anywhere in a value make no difference to its coercion |
| Metadata.DimensionsRoundTrip | lib/pdftools.js:162-166 | coordinates written as `[` + coordinates joined by single spaces + `]` come back as exactly those coordinates |
| Metadata.InnerCoordinates | lib/pdftools.js:162-166 | a value with no carriage return becomes the space-separated pieces of its trimmed inside, its first and last characters dropped; a value of fewer than two characters gives one empty piece, as for a raw `Dimensions: x` line |
| Metadata.DimensionsTrailingSpace | lib/pdftools.js:162-166 | the bracket test trims the value but the slice does not, so in `[x y] ` the `]` stays on the last coordinate |
| Metadata.EntryOf | lib/pdftools.js:111-117 | whatever a key and value segment contribute is a `dimensions` array or a non-zero `pages` integer |
| Metadata.DimensionsEntry | lib/pdftools.js:111-116 | a line whose key becomes `dimensions` always lands in the record, because an array is truthy |
| Metadata.PagesEntryOf | lib/pdftools.js:167-170 | a `pages` line lands in the record exactly when `parseInt` of its value without carriage returns is a non-zero number; `0` and `NaN` are dropped |
| Metadata.EntryDropped | lib/pdftools.js:111-116 | an empty key or value segment, or a final key other than `dimensions` and `pages`, contributes nothing |
| Metadata.ParseLine | lib/pdftools.js:107-117 | whatever one line contributes is a `dimensions` array or a non-zero `pages` integer |
| Metadata.WrittenLine | lib/pdftools.js:107-113 | a line written `key:`, a white-space run, then `value` contributes the entry of that key and value, where neither the key nor the value holds a `:` followed by white space and the value does not start with white space |
| Metadata.KeySegment | lib/pdftools.js:107-108 | a key with no `:` followed by white space, then `:` and a white-space character, is segment 0 of the line whatever follows, and a segment 1 exists |
| Metadata.StoreLastWins | lib/pdftools.js:106-118 | a key is in the record exactly when some entry stores it, and its value comes from the last such entry |
| Metadata.Collect | lib/pdftools.js:103-120 | the record built from any lines has keys within `{dimensions, pages}`, an array under `dimensions` and a non-zero integer under `pages` |
| Metadata.CollectLastWins | lib/pdftools.js:104-118 | for any lines, a key is in the record exactly when some line contributes it, and the last such line gives its value |
| Metadata.Parse | lib/pdftools.js:99-121 | no record exactly for the empty string; otherwise a record whose keys are within `{dimensions, pages}` |
| Metadata.ParseLines | lib/pdftools.js:104-120 | any non-empty report of `\n`-free lines joined by `\n` parses to the record those lines collect |
| Metadata.BlankReport | lib/pdftools.js:101-120 | a report of nothing but line breaks is the empty record, not the absent one |
| JsText.ToLower | lib/pdftools.js:132 | lower-casing keeps the length and maps each character on its own |
| JsText.RemoveWhitespaceKeeps | lib/pdftools.js:132 | removing `\s` keeps exactly the characters that are not white space |
| JsText.RemoveCharKeeps | lib/pdftools.js:163 | `replace(/\r/g, '')` keeps exactly the characters other than `\r` |
| JsText.Trim | lib/pdftools.js:134 | the trimmed value is a slice of the value framed by white space, with no white space at either of its ends |
| JsText.TrimUnique | lib/pdftools.js:134 | that framing has exactly one solution, the trim |
| JsText.JoinSplit | lib/pdftools.js:104 | joining the pieces of `split` with the separator gives back the string |
| JsText.SplitJoin | lib/pdftools.js:165 | splitting a join of separator-free pieces gives back the pieces |
| JsText.ContainsIff | lib/pdftools.js:76 | `includes` holds exactly when the marker occurs at some index |
| JsText.SliceFirst | lib/pdftools.js:138 | `value.slice(0, 1)` is the first character, or empty for an empty string |
| JsText.SliceLast | lib/pdftools.js:139 | `value.slice(-1)` is the last character, or empty for an empty string |
| JsText.SliceInner | lib/pdftools.js:164 | `slice(1, length - 1)` drops the first and last characters, and is empty for strings shorter than two |
| JsNumber.ParseIntIff | lib/pdftools.js:169 | `parseInt(s)` is `n` exactly when `s` is white space, an optional `+`/`-`, an optional `0x`/`0X` that selects base 16, a non-empty run of digits of that base that the next character does not continue, and anything after; `n` is the sign times the run's value. Without a prefix, the text after the sign must not start with `0x`. `NaN` exactly when `s` has no such shape |
| JsNumber.ParseIntShowInt | lib/pdftools.js:169 | `parseInt` reads back every integer from its decimal numeral |
| JsNumber.ParseIntSurroundings | lib/pdftools.js:169 | leading white space and trailing text that is not a digit do not change the number read, except that an `x` or `X` right after a lone `0` starts a hex prefix (`0x5` reads as 5, not 0) |
| JsNumber.ParseIntHex | lib/pdftools.js:169 | without a radix, a `0x` prefix switches to base 16: `0x1A` is 26 |
| JsNumber.ParseIntNaN | lib/pdftools.js:169 | an empty string, a bare `0x` and a sign followed by a space are `NaN` |
| Mutool.CommandLine | lib/pdftools.js:62-65 | an empty command throws `Missing command`; otherwise the command line is the executable path, one space, and the command |
| Mutool.Classify | lib/pdftools.js:68-87 | exactly one outcome, in priority order: a launch error rejects with it; standard error containing `error:` rejects with that text; other non-empty standard error resolves to the raw text; non-empty standard output resolves to its parsed record; otherwise `null` |
| Mutool.Exec | lib/pdftools.js:60-89 | `exec` throws exactly for an empty command, and otherwise settles as the classification of what the process run on the built command line returns |
| Mutool.StdoutIgnored | lib/pdftools.js:71-83 | once there is a launch error or any standard-error text, standard output makes no difference |
| Mutool.MarkerRejects | lib/pdftools.js:76-78 | `error:` anywhere in standard error rejects with the whole text, whatever standard output holds |
| Mutool.ParsedIsRecord | lib/pdftools.js:81-85 | the promise never resolves with `undefined`: parsed output is non-empty, so it gives a record |
| ReportExamples.OneLineReport | lib/pdftools.js:99-121 | a one-line report holds exactly what its line contributes |
| ReportExamples.PagesWithCarriageReturn | lib/pdftools.js:167-170 | `Pages: n` followed by `\r` gives `pages = n` for non-zero `n`, and the empty record for `0` |
| ReportExamples.DuplicatePages | lib/pdftools.js:106-118 | of two `pages` lines with non-zero counts, the later count is kept |
| ReportExamples.DroppedLineKeepsEarlier | lib/pdftools.js:111-116 | a later line that contributes nothing (such as a `pages` line reading `0` or `NaN`) leaves the earlier line's value in place: the write is skipped, not a removal |
| ReportExamples.ZeroPagesKeepsEarlier | lib/pdftools.js:115-116 | `pages: 3` followed by `pages: 0` keeps `pages = 3`: last write wins only among lines that pass the truthiness test |
| ReportExamples.DimensionsReport | lib/pdftools.js:136-166 | a page-box line `1 (10 R): [c1 … cn]` followed by `\r` gives `dimensions = [c1, …, cn]` and nothing else |
| ReportExamples.RawDimensionsSpelling | lib/pdftools.js:132 | `1 (10 R)` normalizes to `1(10r)` |
| ReportExamples.OtherKeyDropped | lib/pdftools.js:107-116 | a one-line report `key: value`, where the key holds no `:` followed by white space and normalizes to anything but `dimensions`, `pages` and `1(10r)`, gives the empty record whatever the value, including values that hold further `: ` or are empty |
| ReportExamples.TitleDropped | lib/pdftools.js:159-173 | a `Title` line contributes nothing: there is no generic string coercion |
| ReportExamples.TaggedDropped | lib/pdftools.js:159-173 | a `Tagged` line contributes nothing, whether it says `yes` or `no` |
| ReportExamples.BadFileRejects | lib/pdftools.js:76-78 | standard error `error: bad file` rejects with that text, whatever standard output holds |
| ReportExamples.WarningResolvesRaw | lib/pdftools.js:79-80 | standard error without the marker resolves to that text |

## Left out

- The `mutool` constructor is not modelled. That covers the platform check, the temp-path computation and copying the binary with `fs` (lib/pdftools.js:24-46). These are operating-system and filesystem plumbing. The executable path is a parameter of `Mutool.Exec`.
- The `errors` field is not modelled. It is set in the constructor and never read.
- `child_process.exec`, the `Promise` and the `EventEmitter` inheritance are not modelled. The child process is the parameter `run` of `Mutool.Exec`, from the command line to `(err, stdout, stderr)`. The promise's settling is the returned `Outcome`, so it settles once by construction.
- The launch error is kept only as a string. The error object's other fields are not modelled.
- Mutool.CommandLine: the command is a string, and only `""` throws. In JavaScript `if (!command)` also throws for `undefined` (no argument), `null`, `0` and `false`; the model folds every such falsy command into `""`.
- `JsText.ToLower`: lower-cases ASCII letters only. JavaScript's `toLowerCase` follows the full Unicode case mapping, which this model does not include. That mapping can also change a string's length: U+0130 becomes `i` followed by U+0307, while `ToLower` keeps the length. U+0307 is not white space, so no key containing it can become `dimensions`, `pages` or `1(10r)`. The only non-ASCII character that lower-cases into ASCII is the Kelvin sign U+212A, which becomes `k`. None of the keys that can survive (`dimensions`, `pages`, `1(10r)`) contain `k`, so the record is unaffected.
- JavaScript strings are UTF-16 code units, while a Dafny `char` is a Unicode scalar value. The model does not treat surrogate pairs separately. None of the characters the parser tests is a surrogate. The one positional cut is different: `slice(1, length - 1)` in the `dimensions` coercion removes one UTF-16 code unit at each end, so for a raw `Dimensions:` line whose value starts or ends with a character outside the Basic Multilingual Plane, JavaScript keeps a lone surrogate while `Metadata.FormatValue` drops the whole character. A renamed `1(10r)` value is unaffected, since it starts with `[` and ends with `]` or white space.
- `JsNumber.ParseInt`: returns an unbounded integer. `parseInt` returns a double, which rounds very long numerals and gives `Infinity` for numerals beyond the double range. It also gives `-0` for `-0`, which is falsy like `0` and dropped either way.
- `test/index.test.js` is not modelled. It exercises a different API from the one `lib/pdftools.js` exports: a callback-style `exec`, a constructor that takes a path or a stream, and `title`/`tagged` fields.
