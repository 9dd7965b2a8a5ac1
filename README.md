# generator-kardbaard, modelled in Dafny

generator-kardbaard is a Yeoman generator for a Node/SQL Server backend and
a browser front end. This project models the deterministic logic in the
generator and in the templates it writes:

- **The generated server's SQL helper** (`utils.sql.js`):
  - `parseInitTable` reads a `CREATE TABLE` script into an ordered column list;
  - `getParams` binds a record to that list;
  - `dropTable` builds the drop query;
  - `createMany` builds a bulk-insert table, with its per-value null/integer coercion, and reshapes the read-back rows.
- **The generator's name helpers** (`generators/utils.js`): `normalizeGit` clean-up, `pascalCase`, `camelCase`, `escapeRegex`, `injectRegex`, `createPathName`.
- **The server's small utilities** (`utils.js`): `escapeRegex`, `replace`, `headBy`.
- **The configuration coercions**: `fixBackslashes`, `parseBool`.
- **The auth service**: token lookup (`findToken`), the string-or-request branch of `decodeToken`, and the layout of `guid`.
- **The query-string URL builders**: the server's `_get`/`_delete` and the browser's `http.get`, which carry the same code and are modelled once.
- **The `lock` and `tsd` sub-generators**: version stripping of `package.json` dependencies, the indentation fallback, and the `tsd install` command.

## How the model is built

- **JavaScript values** are the datatype `JsValue.Value`: `undefined`, `null`, `NaN`, booleans, integers and strings. Truthiness, `String(x)`, `parseInt` and `isNaN` are written out for it.
- **Regular expressions** are hand-written scanners with the leftmost, greedy match of the JavaScript engine. Each scanner's contract pins the match the engine returns: a predicate states what a match is, and the contract says the result is the one with the leftmost start and, for a greedy part, the furthest end, or that no match exists. A case-insensitive pattern made of ASCII letters is an ASCII case fold, which is what `/i` does outside unicode mode.
- **Foreign calls become parameters or inputs:**
  - `normalize-git-url` and `encodeURI` are function parameters.
  - The bulk request's row count, the read-back rows and `Math.random`'s chunks are inputs.
  - The driver's type constructors are a finite map from upper-case type name to the driver's type, sized or unsized.
- **`createMany`** is imperative. `SqlBulk.BulkTable` is a class whose `columns` and `rows` the method `SqlBulk.CreateMany` extends in two loops, just as the source fills `_table.columns` and `_table.rows`.
- **Everything else is pure** and modelled as functions. Lemmas relate them to inverses (escaping, hex text, `split` after `join`), to invariants they keep (idempotence, name sets, sortedness), or to a second, independent definition: whitespace-run deletion, backslash collapsing, and `pascalCase` read character by character.

Three behaviours of the code a reader might not expect:
- **Single-line tables.** The body match `(CREATE TABLE.*\()([\S\s]*)(?=\)\s)` needs the opening parenthesis on the `CREATE TABLE` line. It takes the last such parenthesis on that line, and ends at the last `)` that is followed by whitespace. A one-line `CREATE TABLE t ([a] int)` with nothing after the `)` has no match, so it parses to `[]`.
- **Whitespace clean-up.** `\s{2,}` is removed outright, not collapsed to one space, so `NOT  NULL` becomes `NOTNULL` and the column counts as nullable.
- **Defaults.** The default text runs to the last whitespace on the line (`default\s(.*)\s`, greedy), not to the first.

## Model

| member | source | states |
|---|---|---|
| SqlSchema.LastCloseParenSpace | generators/app/templates/server/utils/utils.sql.js:100 | the last `)` followed by whitespace before a bound, or none: where the greedy `[\S\s]*` backs off to before the lookahead `(?=\)\s)` |
| SqlSchema.OpenParen | generators/app/templates/server/utils/utils.sql.js:100 | for a `CREATE TABLE` start and a body end, the last `(` on the same line before the end, which the greedy `.*\(` takes; none exactly when no `(` fits |
| SqlSchema.BodyStartFrom | generators/app/templates/server/utils/utils.sql.js:100 | the leftmost `CREATE TABLE` (any case) at or after a position for which the pattern matches with the given end, with its `(`; none exactly when no start fits |
| SqlSchema.ExtractBody | generators/app/templates/server/utils/utils.sql.js:100 | the body exists exactly when the pattern matches somewhere, and it is group 2 of the match the engine returns: leftmost `CREATE TABLE`, then the last `(` on that line, then up to the last `)` followed by whitespace |
| SqlSchema.SplitColumns | generators/app/templates/server/utils/utils.sql.js:102 | at least one fragment, and every fragment after the first starts with `[` |
| SqlSchema.SplitColumnsSpec | generators/app/templates/server/utils/utils.sql.js:102 | the fragments are the text between the `,\s*(?=\[)` separators: no fragment contains a separator, and putting each comma-and-whitespace separator back between them rebuilds the body |
| SqlSchema.DropSpaceRuns | generators/app/templates/server/utils/utils.sql.js:104 | no two whitespace characters remain adjacent, the non-whitespace characters are kept in order, and a leading non-space character is kept |
| SqlSchema.DropSpaceRunsSpec | generators/app/templates/server/utils/utils.sql.js:104 | equal to the reference definition that deletes exactly the characters in a run of two or more whitespace characters and keeps every other character, single spaces included |
| SqlSchema.SpaceRunStart | generators/app/templates/server/utils/utils.sql.js:106 | the start of the whitespace run that ends at a position |
| SqlSchema.StripComment | generators/app/templates/server/utils/utils.sql.js:106 | a line without `--` is unchanged; otherwise the removed text starts at the beginning of the whitespace run before the first `--` and ends at the end of that line |
| SqlSchema.KeptFragments | generators/app/templates/server/utils/utils.sql.js:108 | exactly the fragments that pass the identity filter, as a subsequence of the fragments |
| SqlSchema.AllKeptWithoutSkipIdentity | generators/app/templates/server/utils/utils.sql.js:108 | with `skipIdentity` false every fragment is kept |
| SqlSchema.NameEnd | generators/app/templates/server/utils/utils.sql.js:112 | for a `[`, the last `]` on the same line at least two characters on (greedy `.+`), or none |
| SqlSchema.NamePos | generators/app/templates/server/utils/utils.sql.js:112 | the leftmost `[` that has a name match, with its greatest `]`; none exactly when no match exists |
| SqlSchema.ColumnName | generators/app/templates/server/utils/utils.sql.js:112 | the name is the non-empty group of the match `\[(.+)\]` returns: leftmost `[`, last `]` on its line; none exactly when no match exists (the source throws) |
| SqlSchema.TokenAfter | generators/app/templates/server/utils/utils.sql.js:115 | the non-empty run of non-whitespace after a `]` and its whitespace |
| SqlSchema.TypeTokenPos | generators/app/templates/server/utils/utils.sql.js:115 | the leftmost `]` that is followed, after optional whitespace, by a non-whitespace character; none exactly when there is no such `]` |
| SqlSchema.TypeToken | generators/app/templates/server/utils/utils.sql.js:115 | the token is the non-empty, space-free run after the leftmost `]` that has one; none exactly when no `]` is followed by a non-whitespace character |
| SqlSchema.ParenEnd | generators/app/templates/server/utils/utils.sql.js:117 | for a `(`, the last `)` after it on the same line, or none |
| SqlSchema.ParenPos | generators/app/templates/server/utils/utils.sql.js:117 | the leftmost `(` that has a `)` after it on its line, with the last such `)`; none exactly when no match exists |
| SqlSchema.ParenArg | generators/app/templates/server/utils/utils.sql.js:117 | the argument is the group of the match `\((.*)\)` returns: leftmost `(` with a match, last `)` on its line; none exactly when no match exists |
| SqlSchema.MaxArgContainsMax | generators/app/templates/server/utils/utils.sql.js:120-125 | an argument accepted as `max` (any case) is also recognised by the `max` test that picks the driver's MAX |
| SqlSchema.CutAtParen | generators/app/templates/server/utils/utils.sql.js:129 | the type name is the prefix of the token before its first `(`, or the whole token when it has none |
| SqlSchema.Lookup | generators/app/templates/server/utils/utils.sql.js:136 | a type name found in the driver's table gives its entry, otherwise the type is missing |
| SqlSchema.ResolveType | generators/app/templates/server/utils/utils.sql.js:117-137 | the argument is used only when it is all digits or `max`, otherwise the type is looked up unsized; a sized lookup of an unknown type fails, and the parameter is applied exactly when the driver's type is sized |
| SqlSchema.DefaultEnd | generators/app/templates/server/utils/utils.sql.js:142 | for a `default` (any case) followed by whitespace, the last whitespace on the same line after it, or none |
| SqlSchema.DefaultPos | generators/app/templates/server/utils/utils.sql.js:142 | the leftmost `default` that has a match, with its greatest end; none exactly when no match exists |
| SqlSchema.DefaultClause | generators/app/templates/server/utils/utils.sql.js:142 | the default is the group of the match `default\s(.*)\s` returns: leftmost `default`, up to the last whitespace on its line; none exactly when no match exists |
| SqlSchema.ParseColumn | generators/app/templates/server/utils/utils.sql.js:110-144 | a parsed column has a non-empty name |
| SqlSchema.ParseColumnSpec | generators/app/templates/server/utils/utils.sql.js:110-144 | a parsed column is the leftmost bracket match's name, `nullable` exactly when no `not null` appears in any case, the type resolved from the leftmost type token and the parenthesised argument, and the default clause |
| SqlSchema.ParseColumnNeedsName | generators/app/templates/server/utils/utils.sql.js:112 | a fragment is refused as unnamed exactly when it has no `[…]` match |
| SqlSchema.ParseColumnNeedsTypeToken | generators/app/templates/server/utils/utils.sql.js:115 | a named fragment with no `]` followed by a non-whitespace character is refused for its type token |
| SqlSchema.ParseColumnNeedsKnownSizedType | generators/app/templates/server/utils/utils.sql.js:117-137 | a named fragment whose type resolution fails is refused with that failure |
| SqlSchema.ParseColumns | generators/app/templates/server/utils/utils.sql.js:110-144 | a successful map gives one column per fragment |
| SqlSchema.ParseColumnsSpec | generators/app/templates/server/utils/utils.sql.js:110-144 | the column list succeeds exactly when every fragment parses, and its i-th column is the i-th fragment's |
| SqlSchema.FindSkipName | generators/app/templates/server/utils/utils.sql.js:146 | a skip name is found exactly when one equals the column name ignoring case |
| SqlSchema.SkippedIffNamed | generators/app/templates/server/utils/utils.sql.js:146 | a column is dropped exactly when some skip name equals its name ignoring case |
| SqlSchema.SkipNamed | generators/app/templates/server/utils/utils.sql.js:146 | exactly the columns not named in `skipNames`, in their original order |
| SqlSchema.Fragments | generators/app/templates/server/utils/utils.sql.js:98-106 | there are fragments exactly when the body pattern matches |
| SqlSchema.ParseTable | generators/app/templates/server/utils/utils.sql.js:98-147 | every column of a successful parse is named and not skipped |
| SqlSchema.ParseInitTable | generators/app/templates/server/utils/utils.sql.js:96-152 | a parse that throws gives `[]`; no output column is named in `skipNames`, ignoring case |
| SqlSchema.EmptyOnThrow | generators/app/templates/server/utils/utils.sql.js:97-151 | no body match, or a kept fragment without a name, a type token or a known sized type, gives `[]` |
| SqlSchema.OneBadLineFails | generators/app/templates/server/utils/utils.sql.js:110-144 | one fragment that fails to parse makes the whole map fail |
| SqlSchema.ColumnsComeFromFragments | generators/app/templates/server/utils/utils.sql.js:98-146 | every output column is parsed from a kept fragment and is not skipped; when the parse succeeds every kept fragment's column is output unless skipped |
| SqlSchema.ColumnsKeepDeclarationOrder | generators/app/templates/server/utils/utils.sql.js:98-146 | any two output columns come from fragments in the same order |
| SqlParams.ParamColumns | generators/app/templates/server/utils/utils.sql.js:294 | exactly the model entries whose name is not in `nonParams` (exact match), in order |
| SqlParams.BindAll | generators/app/templates/server/utils/utils.sql.js:293-297 | the keys are the names folded in; each maps to the type of the last column with that name and the record's value |
| SqlParams.GetParams | generators/app/templates/server/utils/utils.sql.js:292-298 | the keys are exactly the names not in `nonParams`; each maps to `{type, val: item[name]}` with the type of the last parameter column of that name, the one the left-to-right `_.assign` leaves |
| SqlParams.GetParamsOfColumn | generators/app/templates/server/utils/utils.sql.js:292-298 | a uniquely named parameter column maps to its own type and the record's value |
| SqlParams.EnsureBrackets | generators/app/templates/server/utils/utils.sql.js:164-166 | a bracketed name is kept, any other name is wrapped in `[` `]`, and a one-line result is always bracketed |
| SqlParams.EnsureBracketsIdempotent | generators/app/templates/server/utils/utils.sql.js:169-171 | bracketing a one-line name twice is bracketing it once |
| SqlParams.TablePath | generators/app/templates/server/utils/utils.sql.js:164-176 | `[dbo].[table]`, with `[database].` before it only when a database is given |
| SqlParams.DropTableQuery | generators/app/templates/server/utils/utils.sql.js:179 | the query is `DROP TABLE ` followed by the table path |
| SqlParams.DropTableNamesTable | generators/app/templates/server/utils/utils.sql.js:164-179 | the query ends with `[dbo].` and the bracketed table name |
| SqlBulk.NullsInAnyColumnIff | generators/app/templates/server/utils/utils.sql.js:240-242 | the type-independent null criteria (`NullsInAnyColumn`) hold exactly for the string `'NaN'` and `undefined` |
| SqlBulk.CoerceAsWritten | generators/app/templates/server/utils/utils.sql.js:238-255 | a column with no type fails; the type-independent criteria give null; outside `Int` columns (`IsIntType`, the `/Int/` test) a value is kept or made null; in an `Int` column another value is null exactly when `isNaN` holds, and otherwise `parseInt` of its text (`NaN` when that reads no digits) |
| SqlBulk.AsWrittenNullBecomesNaN | generators/app/templates/server/utils/utils.sql.js:243-252 | as written, `null` in an `Int` column passes every criterion and `parseInt` makes it `NaN` |
| SqlBulk.AsWrittenBlankBecomesNaN | generators/app/templates/server/utils/utils.sql.js:243-252 | as written, `''` in an `Int` column becomes `NaN` |
| SqlBulk.AsWrittenNaNPassesThrough | generators/app/templates/server/utils/utils.sql.js:240-254 | as written, a `NaN` number in a non-`Int` column is stored as `NaN` |
| SqlBulk.Coerce | generators/app/templates/server/utils/utils.sql.js:238-255 | corrected coercion: never `NaN` or `undefined`; in an `Int` column null exactly for missing or `NaN` values, when `isNaN` holds, or when `parseInt` reads no digits, and otherwise the integer `parseInt` reads; other columns get null for missing or `NaN` values and the value otherwise |
| SqlBulk.CoerceAgreesOffNaN | generators/app/templates/server/utils/utils.sql.js:238-255 | the correction changes only the cells the code as written fills with `NaN`, which become null |
| SqlBulk.CoerceKeepsIntegers | generators/app/templates/server/utils/utils.sql.js:251-252 | an integer below 1e21 in magnitude in an `Int` column is stored unchanged |
| SqlBulk.RowOf | generators/app/templates/server/utils/utils.sql.js:232-256 | one value per column in column order, each the coercion of the record's field; fails exactly when a column has no type |
| SqlBulk.MissingFieldIsNull | generators/app/templates/server/utils/utils.sql.js:236-250 | a field absent from the record is null in the row |
| SqlBulk.ReadBackQuery | generators/app/templates/server/utils/utils.sql.js:273-277 | ` TOP n` is inserted after the first `SELECT` (the text is unchanged when there is none) and `ORDER BY [mainId] DESC` is appended |
| SqlBulk.MainId | generators/app/templates/server/utils/utils.sql.js:202 | an empty `mainId` defaults to `baseName + 'Id'` |
| SqlBulk.Shape | generators/app/templates/server/utils/utils.sql.js:280 | an array input resolves the read-back rows reversed; a single record resolves the first row |
| SqlBulk.Items | generators/app/templates/server/utils/utils.sql.js:205-210 | a single record is wrapped as a one-element array |
| SqlBulk.BulkTable.constructor | generators/app/templates/server/utils/utils.sql.js:217 | a new table has the given name, no columns, no rows and `create` unset |
| SqlBulk.BulkTable.AddColumn | generators/app/templates/server/utils/utils.sql.js:228 | appends one column and changes nothing else |
| SqlBulk.BulkTable.AddRow | generators/app/templates/server/utils/utils.sql.js:259 | appends one row and changes nothing else |
| SqlBulk.CreateMany | generators/app/templates/server/utils/utils.sql.js:200-281 | an empty collection resolves `[]` with no table; otherwise a fresh table with `create` set, the parsed columns, and one coerced row per record in order; an untyped column, a failed bulk insert or a failed read-back rejects; otherwise it resolves the shaped read-back rows |
| SqlBulk.CreateManyAsWritten | generators/app/templates/server/utils/utils.sql.js:212-220 | as written, an empty collection resolves `[]` |
| SqlBulk.AsWrittenAlwaysRejects | generators/app/templates/server/utils/utils.sql.js:220 | as written, every non-empty call rejects because `path` is not defined |
| GeneratorUtils.NormalizeGit | generators/utils.js:17-32 | a falsy or non-string input gives empty `url` and `branch`; otherwise `branch` comes from the parser and `url` is cleaned; `rawUrl` is always the input |
| GeneratorUtils.StripGitSuffix | generators/utils.js:27 | a trailing `.git` is removed and nothing else |
| GeneratorUtils.StripGitOf | generators/utils.js:27 | stripping `x + '.git'` gives `x` |
| GeneratorUtils.UserPrefixEnd | generators/utils.js:28 | the end of the only match of the anchored pattern (letters then `@`, or `https://` in any case, letters, then `@`); none exactly when neither alternative matches at the start |
| GeneratorUtils.UserPrefixOfHttps | generators/utils.js:28 | `https://user@rest` with a letters-only user matches up to its `@` |
| GeneratorUtils.RewriteUserPrefix | generators/utils.js:28 | the matched user prefix is replaced by `https://`; without one the URL is unchanged |
| GeneratorUtils.RewriteUserAt | generators/utils.js:28 | `user@rest` with a letters-only user becomes `https://rest` |
| GeneratorUtils.TldColonFrom | generators/utils.js:29 | finds the colon of the leftmost `.tld:` match, or reports that none exists |
| GeneratorUtils.TldColonToSlash | generators/utils.js:29 | exactly that colon becomes `/`; every other character is kept |
| GeneratorUtils.TldColonOfHost | generators/utils.js:29 | in `https://host.tld:path` the colon after the top-level domain is the first match |
| GeneratorUtils.TldColonToSlashOfHost | generators/utils.js:29 | `https://host.tld:path` becomes `https://host.tld/path` |
| GeneratorUtils.CleanSshUrl | generators/utils.js:26-29 | `user@host.tld:path.git` cleans to `https://host.tld/path` |
| GeneratorUtils.Segments | generators/utils.js:43 | at least one segment, each made only of `[a-öA-Ö0-9]` characters |
| GeneratorUtils.SegmentsRejoin | generators/utils.js:43 | nothing is lost by the split: the segments with one separator character put back between each two give the input, so they are exactly the maximal runs of word characters |
| GeneratorUtils.EmptySegmentIff | generators/utils.js:43-44 | an empty segment occurs exactly at a leading, trailing or doubled separator |
| GeneratorUtils.Capitalize | generators/utils.js:44 | the upper case of the first character, then the rest of the segment unchanged |
| GeneratorUtils.Capitalized | generators/utils.js:44 | every segment capitalised, in order |
| GeneratorUtils.PascalCase | generators/utils.js:40-46 | an empty input gives `''`; otherwise it throws exactly when a segment is empty, and a result is the concatenation of the capitalised segments |
| GeneratorUtils.PascalCaseByChars | generators/utils.js:40-46 | a result equals the character-by-character reference: separators dropped, a word character upper-cased when it opens the input or follows a separator, kept otherwise |
| GeneratorUtils.PascalCaseThrowsIff | generators/utils.js:43-44 | it throws exactly when the input starts or ends with a separator or has two separators in a row |
| GeneratorUtils.PascalCaseHasNoSeparators | generators/utils.js:43-45 | the result contains no separator characters |
| GeneratorUtils.CamelCase | generators/utils.js:54-59 | throws exactly when `pascalCase` does; otherwise it is `pascalCase` with only its first character lower-cased |
| GeneratorUtils.EscapeRegex | generators/utils.js:69-71 | a special character gets a backslash before it, any other character is copied |
| GeneratorUtils.EscapeOneChar | generators/utils.js:70 | one character escapes to `\c` when it is in the class, and to itself otherwise |
| GeneratorUtils.EscapeRegexAppend | generators/utils.js:70 | escaping works character by character: escaping a concatenation concatenates the escapes |
| GeneratorUtils.UnescapeEscape | generators/utils.js:69-71 | dropping the inserted backslashes gives the input back |
| GeneratorUtils.Substitute | generators/utils.js:148-150 | a replacement without `$` is inserted literally |
| GeneratorUtils.EscapedWithoutDollar | generators/utils.js:148-150 | a marker without `$`, escaped and used as a replacement, is inserted as its escape |
| GeneratorUtils.InjectPatternAsWritten | generators/utils.js:146-152 | the pattern as written keeps its `(`…`)` frame, and without `$` in the markers it is the corrected pattern |
| GeneratorUtils.InjectPatternAsWrittenLosesDollar | generators/utils.js:148-150 | as written, a start marker `$&` becomes `\{start}` in the pattern instead of `\$&` |
| GeneratorUtils.Enclose | generators/utils.js:148-150 | `(`, the first text, `)([\s\S]*)(?=`, the second text, `)`, each part at its fixed position |
| GeneratorUtils.InjectPattern | generators/utils.js:146-152 | corrected pattern: `(`, escaped start, `)([\s\S]*)(?=`, escaped stop, `)`, each part at its fixed position |
| GeneratorUtils.EscapeHasNoNewDollar | generators/utils.js:70 | escaping adds no `$` |
| GeneratorUtils.InjectPatternRecovers | generators/utils.js:146-152 | both markers can be read back from the pattern |
| GeneratorUtils.JoinNonEmpty | generators/utils.js:194-196 | `_.filter([a, b]).join(sep)`: empty parts are dropped |
| GeneratorUtils.CreatePathName | generators/utils.js:191-197 | a base path containing `api/services` (any case) takes `typeName`; `index.js` or `skipName` take the file name alone; otherwise `typeName.filename`; the result is joined to the base with `/`, with empty parts dropped |
| ServerUtils.EscapeRegex | generators/app/templates/server/utils/utils.js:57-59 | the escape is never shorter than the input |
| ServerUtils.SameClass | generators/app/templates/server/utils/utils.js:58 | the server's character class is the generator's |
| ServerUtils.EscapeRegexAgrees | generators/app/templates/server/utils/utils.js:57-59 | the server's escape equals the generator's on every input |
| ServerUtils.EscapeRegexReversible | generators/app/templates/server/utils/utils.js:57-59 | dropping the inserted backslashes gives the input back |
| ServerUtils.Replace | generators/app/templates/server/utils/utils.js:146-154 | the copy has `value` at `index` and the other elements of the input; setting past the end grows the array and fills the gap with `undefined` |
| ServerUtils.ReplaceUndo | generators/app/templates/www/scripts/services/utils.js:176-184 | replacing with the old element restores the array |
| ServerUtils.ReplaceTwice | generators/app/templates/server/utils/utils.js:150 | a second replacement at the same index overrides the first |
| ServerUtils.ReplaceKey | generators/app/templates/www/scripts/services/utils.js:176-184 | on an object the copy has the key set and the other properties unchanged |
| ServerUtils.ReplaceKeyUndo | generators/app/templates/server/utils/utils.js:146-154 | putting back an existing property's old value restores the object |
| ServerUtils.HeadBy | generators/app/templates/server/utils/utils.js:112-118 | empty gives `undefined`; the result is one of the values; `asc` gives the smallest defined value (`undefined` only when none is defined); `desc` gives the largest, or `undefined` when some element lacks the property |
| ServerUtils.HeadByIsFirst | generators/app/templates/server/utils/utils.js:113-116 | no element sorts strictly before the result under the ordering |
| Config.CollapseBackslashes | generators/app/templates/server/config.js:18 | the greedy scan never lengthens the string |
| Config.CollapseIsDropRepeated | generators/app/templates/server/config.js:18 | the scan equals dropping every backslash that directly follows a backslash |
| Config.DropRepeatedProperties | generators/app/templates/server/config.js:18 | the other characters are kept in order, no two backslashes stay adjacent, and a leading backslash is kept |
| Config.DropRepeatedOfClean | generators/app/templates/server/config.js:18 | a string without doubled backslashes is left as it is |
| Config.FixBackslashes | generators/app/templates/server/config.js:14-19 | a non-string is returned unchanged; a string has its backslash runs collapsed |
| Config.FixBackslashesSpec | generators/app/templates/server/config.js:18 | the result is the reference reading that keeps a backslash exactly when the previous input character is not one, so every run of backslashes becomes one backslash (a leading one included), no two backslashes stay adjacent, and all other characters are kept in order |
| Config.FixBackslashesIdempotent | generators/app/templates/server/config.js:18 | applying it twice is applying it once |
| Config.ParseBool | generators/app/templates/server/config.js:27-33 | `undefined` stays; a boolean is kept; a string is false only when it is exactly `'false'`; anything else is its truthiness |
| Config.ParseBoolSettles | generators/app/templates/server/config.js:28-32 | every defined input gives a boolean, and parsing that again changes nothing |
| Config.ParseBoolOfString | generators/app/templates/server/config.js:30 | for strings the result differs from truthiness exactly on `''` and `'false'` |
| JsValue.PropertyOf | generators/app/templates/server/services/auth/auth.service.js:25-33 | a missing property reads as `undefined`, a present one as its value (also how `item[name]` reads a record's field when the parameters are bound) |
| AuthService.Sources | generators/app/templates/server/services/auth/auth.service.js:24-34 | the nine token sources in their fixed priority order |
| AuthService.FirstTruthy | generators/app/templates/server/services/auth/auth.service.js:24-34 | the index of the leftmost truthy source, or none when no source is truthy |
| AuthService.FoundIsFirstTruthy | generators/app/templates/server/services/auth/auth.service.js:24-34 | the token found is the first truthy source |
| AuthService.BearerOnlyOnStrings | generators/app/templates/server/services/auth/auth.service.js:37-39 | only a string can start with `Bearer ` |
| AuthService.SecondWord | generators/app/templates/server/services/auth/auth.service.js:40 | the second space-separated word: the space-free text after `Bearer `, up to the next space or the end |
| AuthService.FindToken | generators/app/templates/server/services/auth/auth.service.js:22-45 | no source gives `undefined`; without `tokenOnly` a token lacking `Bearer ` gets it and one having it is kept; with `tokenOnly` a `Bearer ` token becomes its second word and any other is kept |
| AuthService.NoSourceNoToken | generators/app/templates/server/services/auth/auth.service.js:24-44 | with every source falsy the result is `undefined` |
| AuthService.FullTokenHasBearer | generators/app/templates/server/services/auth/auth.service.js:37-38 | without `tokenOnly` a found token always starts with `Bearer ` |
| AuthService.BearerRoundTrip | generators/app/templates/server/services/auth/auth.service.js:37-40 | a bare token `t` comes back as `Bearer t` without `tokenOnly` and as `t` with it, and stripping `Bearer t` gives `t` |
| AuthService.PrefixedTokenStripped | generators/app/templates/server/services/auth/auth.service.js:39-40 | a stored `Bearer t` is kept without `tokenOnly` and gives `t` with it |
| AuthService.TokenToDecode | generators/app/templates/server/services/auth/auth.service.js:65-67 | a string argument is used as the token; a request uses `findToken(req)` |
| AuthService.DecodeFromRequestKeepsPrefix | generators/app/templates/server/services/auth/auth.service.js:63-71 | for a request, `decodeToken` decodes `Bearer t`, while a bare string `t` is decoded as `t` |
| AuthService.NatToHex | generators/app/templates/server/services/auth/auth.service.js:127 | `toString(16)` gives one or more hex digits |
| AuthService.HexRoundTrip | generators/app/templates/server/services/auth/auth.service.js:127 | reading the hex text back gives the number |
| AuthService.ChunkHexShape | generators/app/templates/server/services/auth/auth.service.js:127 | a chunk in [0x10000, 0x1FFFF] is five hex digits beginning with `1` |
| AuthService.Groups | generators/app/templates/server/services/auth/auth.service.js:124-128 | eight chunks make five groups |
| AuthService.GroupsOfEight | generators/app/templates/server/services/auth/auth.service.js:124-128 | the groups hold 2, 1, 1, 1 and 3 consecutive chunks |
| AuthService.GuidLayout | generators/app/templates/server/services/auth/auth.service.js:123-130 | `guid()` (`AuthService.Guid`) is the five groups joined by `-`: chunks 1-2, 3, 4, 5 and 6-8 in hex |
| AuthService.GuidChunks | generators/app/templates/server/services/auth/auth.service.js:123-130 | 44 characters, dashes at 10, 16, 22 and 28, and each chunk's hex at its fixed offset |
| AuthService.GuidShape | generators/app/templates/server/services/auth/auth.service.js:123-130 | 44 characters; dashes at 10, 16, 22 and 28; hex digits everywhere else; and each five-digit slice reads back as its chunk |
| HttpUrls.PairText | generators/app/templates/server/utils/utils.http.js:144 | `[key, value].join('=')` writes `null` and `undefined` as empty text |
| HttpUrls.EncodedPairs | generators/app/templates/www/scripts/services/utils.js:125 | one `encodeURI(key=value)` per property, in property order |
| HttpUrls.QueryParams | generators/app/templates/www/scripts/services/utils.js:119-126 | a string is used verbatim; an object gives its encoded pairs joined by `&` (an empty object gives `''`); anything else gives no parameters |
| HttpUrls.RequestUrl | generators/app/templates/server/utils/utils.http.js:88-92 | without parameters the URL is unchanged; otherwise it is the URL, then `&` if it already contains `?` and `?` if not, then the parameters |
| HttpUrls.RequestUrlHasQuery | generators/app/templates/www/scripts/services/utils.js:129-132 | whenever parameters are appended the URL contains `?` |
| HttpUrls.FieldsRoundTrip | generators/app/templates/server/utils/utils.http.js:83-86 | splitting the parameters at `&` gives back the encoded pairs in property order, when none contains `&` |
| LockGenerator.KeepOnly | generators/lock/index.js:52 | the result keeps only allowed characters and is never longer |
| LockGenerator.KeepOnlyAppend | generators/lock/index.js:65 | filtering works character by character, so it keeps the allowed characters in their original order |
| LockGenerator.KeepOnlyClean | generators/lock/index.js:52 | a version made only of allowed characters is unchanged |
| LockGenerator.KeepOnlyIdempotent | generators/lock/index.js:65 | stripping twice is stripping once |
| LockGenerator.Assign | generators/lock/index.js:56 | `_.assign` keeps the key order and adds a new key at the end |
| LockGenerator.AssignAppends | generators/lock/index.js:53-57 | assigning a new key appends that entry |
| LockGenerator.CollectFresh | generators/lock/index.js:53-57 | the `reduce` with `_.assign` (`Collect`) appends entries with distinct new names in order |
| LockGenerator.CollectNames | generators/lock/index.js:53-57 | the fold's names are the accumulator's and the items' |
| LockGenerator.StripVersions | generators/lock/index.js:51-52 | every entry keeps its name and has its version stripped, in order |
| LockGenerator.LockSectionSpec | generators/lock/index.js:48-71 | a locked section (`LockSection`) has the same set of package names; with distinct names it is its entries with versions stripped, in order |
| LockGenerator.Lock | generators/lock/index.js:74 | every other field is preserved; both sections are replaced by their locked forms |
| LockGenerator.LockIdempotent | generators/lock/index.js:48-74 | locking a locked package changes nothing |
| LockGenerator.LockedSectionStable | generators/lock/index.js:48-71 | a locked section keeps distinct names and is a fixed point |
| LockGenerator.IndentAt | generators/lock/index.js:25 | an indentation match is at least one whitespace character wide |
| LockGenerator.FirstIndent | generators/lock/index.js:25 | the width of the leftmost `{`, newline, whitespace run before `"` |
| LockGenerator.IndentWidth | generators/lock/index.js:24-30 | the detected width, or 4 when the file is unreadable or has no match |
| LockGenerator.IndentOfStandardFile | generators/lock/index.js:25 | a file opening `{`, newline, n spaces, then `"` is indented by n |
| LockGenerator.Writing | generators/lock/index.js:20-74 | an unparsable file is left alone; otherwise the locked package and the indentation |
| TsdGenerator.StrLeqTotal | generators/tsd/index.js:63 | the default sort order relates every two names |
| TsdGenerator.StrLeqAntisymmetric | generators/tsd/index.js:63 | names equal in the default sort order are the same name |
| TsdGenerator.Uniq | generators/tsd/index.js:61 | no duplicates, the same members |
| TsdGenerator.Insert | generators/tsd/index.js:63 | inserting adds exactly one occurrence |
| TsdGenerator.InsertSorted | generators/tsd/index.js:63 | inserting into a sorted list keeps it sorted |
| TsdGenerator.Sort | generators/tsd/index.js:63 | the sort is a permutation |
| TsdGenerator.SortSorted | generators/tsd/index.js:63 | the sort is ascending |
| TsdGenerator.DependencyNamesSpec | generators/tsd/index.js:57-63 | the name list (`DependencyNames`) is strictly ascending, has no duplicates, and holds exactly the names in `dependencies` or `devDependencies` |
| TsdGenerator.CommandShape | generators/tsd/index.js:66 | the command (`Command`) is `tsd install`, then the names, then `--save`, joined by single spaces |
| TsdGenerator.Install | generators/tsd/index.js:36-66 | no command without `tsd` or with an unparsable `package.json`; otherwise the install command for the dependency names |

## Left out

- Connection handling in `utils.sql.js` (the shared connection, its events, `getConnection`) and the `seriate`/`mssql` requests. The bulk request's row count and the read-back rows are inputs to `SqlBulk.CreateMany`; `dropTable` is modelled up to the query text.
- SqlBulk.CreateMany: `objectify` is treated as the identity on the read-back rows. It is not imported or defined in `utils.sql.js` either, but the missing `path` fails first.
- SqlBulk.CreateMany: the column list and the find script are inputs. Reading `<baseName>.initialize.sql` from disk is I/O, and the columns come from `SqlSchema.ParseInitTable`.
- SqlBulk.CreateMany: a `collection` argument that is itself `undefined` or `null` is not represented. The source wraps it as the one-element array `[collection]`.
- `parseInitTable` with a non-string argument, or a type table entry that is not a function: the driver's table is a map to sized or unsized types.
- SqlSchema.ResolveType: the numeric size is not modelled. `Number(arg)` and the driver's `MAX` constant are recorded only as "a parameter is applied".
- SqlParams.GetParams: `_.set` treats a name containing `.` or `[` as a nested path; the model binds the name as a flat key.
- GeneratorUtils.NormalizeGit: `normalize-git-url` is a function parameter, and the extra fields it returns are not modelled beyond `url` and `branch`.
- GeneratorUtils.PascalCaseHasNoSeparators: assumes no segment starts with U+00B5, whose upper case (U+039C) is outside `[a-öA-Ö0-9]`.
- `JsValue.Value` has no non-integer numbers, objects, arrays or `Date`s. So the model does not cover:
  - `parseInt(1.5)` giving `1` in an `Int` column (`utils.sql.js:252`);
  - a `Date` in an `Int` column becoming `NaN`;
  - array- or object-valued query or body parameters reaching `findToken` (`auth.service.js:25-33`);
  - fractional numbers written by `[key, value].join('=')`;
  - number precision: the model's integers are unbounded and exact. `String(n)` switches to exponent form from 1e21 (so `parseInt` of it reads only the leading digit), and integers above 2^53 are rounded. This reaches `String(x)` in `HttpUrls.PairText` and `AuthService.BearerOnlyOnStrings`, and `parseInt` in `SqlBulk.Coerce`.
- SqlBulk.CoerceKeepsIntegers: stated only for |i| < 1e21, where `String(i)` has no exponent form. Above 2^53 the double stored by the source is the rounded value, which the model does not represent.
- `toUpperCase`/`toLowerCase` are modelled for Latin-1 only, plus the two Latin-1 letters that map outside it. Other characters are left unchanged.
- Strings are sequences of code points; UTF-16 surrogate pairs are not modelled.
- `injectRegex`'s `flags` and the `RegExp` object it returns. The model builds the pattern text.
- `literalRegExp`, `injectText`, `assignDeep` and the template copy helpers: file I/O.
- ServerUtils.HeadBy: property values are integers or absent. lodash's ordering of mixed types, `null`, `NaN` and strings is not modelled.
- ServerUtils.Replace: `_.clone` of non-array, non-object values and array indices given as strings are not modelled.
- `jwt.decode`, `jwt.sign` and `bcrypt` are foreign. `decodeToken` is modelled up to the token it hands to `jwt.decode`.
- `guid`: `Math.random` is replaced by eight chunks given as inputs, each in [0x10000, 0x1FFFF].
- `encodeURI` is a function parameter of `HttpUrls.QueryParams`. Object properties are given as an ordered list, standing for the enumeration order.
- The request itself in `_get`, `_delete` and `http.get`: only the URL is modelled.
- `http.get`, `_get` and `_delete` carry the same code. `HttpUrls` models it once, and the browser's `replace` is `ServerUtils.Replace`.
- `lock` and `tsd`: reading and writing `package.json`, `JSON.parse`, `JSON.stringify` (including its cap of 10 on indentation) and the shell are I/O. A parse result is an input, and dependency sections are ordered lists of name/version pairs with string versions.
- LockGenerator.Lock: the written file's top-level key order is not modelled.
- TsdGenerator.Sort: the sort is insertion sort under the code-point order. For a total order on distinct names the sorted result is unique, so it equals what the engine's sort returns.

## Findings

| source | as written | input that shows it | evidently intended | confidence | as-written member | corrected member |
|---|---|---|---|---|---|---|
| generators/app/templates/server/utils/utils.sql.js:220 | `path.resolve(...)`, but `path` is never imported in the file | any non-empty collection: the promise rejects before a column is read | resolve the script next to `dirname` and insert the rows | not executed | SqlBulk.CreateManyAsWritten, SqlBulk.AsWrittenAlwaysRejects | SqlBulk.CreateMany |
| generators/app/templates/server/utils/utils.sql.js:239-255 | the null criteria miss `null`, `''` and booleans in `Int` columns (`isNaN` of them is false), so `parseInt` turns them into `NaN`; a `NaN` number in a non-`Int` column passes through | `null` in an `Int` column is stored as `NaN` | missing or `NaN` values are stored as null, as the comment at lines 248-249 says | not executed | SqlBulk.CoerceAsWritten, SqlBulk.AsWrittenNullBecomesNaN | SqlBulk.Coerce, SqlBulk.CoerceAgreesOffNaN |
| generators/utils.js:148-150 | the escaped marker is passed as the replacement string of `String.prototype.replace`, where `$&`, `` $` `` and `$'` are substitution patterns | `injectRegex('$&', '')` builds `(\{start})([\s\S]*)(?=)` | the escaped marker inserted literally: `(\$&)([\s\S]*)(?=)` | not executed | GeneratorUtils.InjectPatternAsWritten, GeneratorUtils.InjectPatternAsWrittenLosesDollar | GeneratorUtils.InjectPattern, GeneratorUtils.InjectPatternRecovers |
