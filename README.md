# LiveCodes import map, stylesheet imports and CommonJS conversion

This project models `src/livecodes/compiler/import-map.ts` from the LiveCodes playground. That
file rewrites the code a user writes so it can run in the browser:

- `getImports` / `hasImports` find the `import ... from "..."` statements of a script and read
  their module specifiers.
- `isBare` tells a package name such as `lodash` or `lodash/debounce` apart from a URL
  (`https://`, `http://`), a path (`.`, `/`), a `data:` URI or a `blob:` URI.
- `createImportMap` builds the import map. Each bare specifier is covered by the first
  configured key equal to it or a path prefix of it (`key/...`). Without such a key, the
  module URL service is asked for the specifier's URL. The per-specifier objects are merged
  left to right with object spread.
- `replaceImports` rewrites every import statement, using the import map.
- `hasStyleImports` / `replaceStyleImports` do the same for the CSS `@import` statements of a
  stylesheet, wrapping the result in an `@media` block when the statement names media.
- `cjs2esm` turns a CommonJS module into an ES module. It numbers every `require('...')` id,
  imports it twice (default and namespace), publishes the imports in a lookup object behind a
  `window.require` shim, and exports `module.exports` by default.

Everything in the file is a pure string transform, so the model is datatypes, functions and
lemmas:

- `strings.dfy` (`JsStrings`): the JavaScript string operations the file uses.
  - `startsWith`, `indexOf`, `trim`, `join`.
  - `s.replace(str, repl)`, which replaces the first occurrence and expands `$` patterns in the
    replacement.
  - `s.replace(/c/g, '')`.
  - The template rendering of a number.
- `scan.dfy` (`Scanning`): what `matchAll`, `replace` with a callback and `test` do with a
  global regular expression. The pattern is given as a matcher that reports the length and the
  groups of a match at the start of a text. The scan is leftmost and continues from the end of
  each match.
- `patterns.dfy` (`Patterns`): hand-written matchers for `importsPattern`,
  `styleimportsPattern`, `requirePattern` and the word test of `cjs2esm`. Each follows the
  backtracking order of the ECMAScript regular expression it stands for.
- `import_map.dfy` (`ImportMap`): `isBare`, `getImports`, `hasImports`, objects as ordered
  tables with spread and reduce, `createImportMap` and `replaceImports`. It also holds the
  rewriting the code evidently intended (see Findings).
- `style_imports.dfy` (`StyleImports`): `hasStyleImports` and `replaceStyleImports`.
- `cjs2esm.dfy` (`CommonJs`): `cjs2esm`.

`modulesService.getModuleUrl` is not part of this model. It is a parameter of type `Resolver`;
its second argument is `None` where the call leaves it out. `config.imports` is given as a
`Table`, in key order.

`getRequires` (import-map.ts:78-81) keeps one id per `require` call, repeats included: nothing
collapses them. A repeated id therefore gets its own index, its own pair of imports and its own
entry in the lookup object (import-map.ts:87-97), and the model does the same
(`CommonJs.GetRequiresSpec`, `CommonJs.EveryRequireImported`, `CommonJs.BindingsDistinct`).

## Model

| member | source | states |
|---|---|---|
| ImportMap.IsBare | src/livecodes/compiler/import-map.ts:11-17 | `isBare`: false when the specifier starts with `https://`, `http://`, `.`, `/`, `data:` or `blob:`, true otherwise; characterised by BareIff |
| ImportMap.GetImports | src/livecodes/compiler/import-map.ts:6-9 | `getImports`: the second group of every `importsPattern` match, in order, with `"` and then `'` removed; one entry per statement (GetImportsSpec) |
| ImportMap.HasImports | src/livecodes/compiler/import-map.ts:36-37 | `hasImports`: `importsPattern` matches somewhere or the code contains `export {}` (HasImportsIff) |
| ImportMap.Put | src/livecodes/compiler/import-map.ts:34 | Setting one property of an object: an existing key keeps its place, a new key goes last (PutGet, PutKeys) |
| ImportMap.Spread | src/livecodes/compiler/import-map.ts:34 | `{ ...acc, ...curr }`: the properties of `curr` set one by one on `acc`, in order (SpreadGet, SpreadKeys) |
| ImportMap.Reduce | src/livecodes/compiler/import-map.ts:34 | `.reduce((acc, curr) => ({ ...acc, ...curr }), {})`: the objects spread left to right (ReduceKeys, ReduceEntries, LaterOverwrites) |
| ImportMap.FindKey | src/livecodes/compiler/import-map.ts:25-27 | `Object.keys(t).find(...)`: the first key equal to the specifier or a path prefix of it (FirstMatch) |
| ImportMap.Contribution | src/livecodes/compiler/import-map.ts:21-32 | The `.map` callback of `createImportMap`: `{}` for a non-bare specifier, the covering configured key and its URL when the key is truthy, else the specifier and the service's URL (ContributionSpec) |
| ImportMap.CreateImportMap | src/livecodes/compiler/import-map.ts:19-34 | `createImportMap`: the contributions of the specifiers getImports lists, merged left to right (CreateImportMapSpec) |
| ImportMap.LibName | src/livecodes/compiler/import-map.ts:42-45 | The specifier the `replaceImports` callback reads: the statement with `importsPattern` replaced by `$2`, then `"` and `'` removed (LibNameOfStatement) |
| ImportMap.RewriteFor | src/livecodes/compiler/import-map.ts:47-53 | The callback once the specifier is known: the statement unchanged without a truthy covering key, else `statement.replace(key, importMap[key])` (RewriteForSpec) |
| ImportMap.ReplaceImports | src/livecodes/compiler/import-map.ts:39-55 | `replaceImports`: every statement the scan finds replaced by the callback, the text between kept (RewriteOfScannedStatements) |
| Patterns.MatchImport | src/livecodes/compiler/import-map.ts:4 | `importsPattern` tried at the start of a text: `import`, a blank, the clause, the quoted specifier and an optional `;` (MatchImportSpec) |
| Patterns.MatchStyleImport | src/livecodes/compiler/import-map.ts:57 | `styleimportsPattern` tried at the start of a text: `@import`, blanks, a quoted or `url(...)` target, and everything up to the last `;` of the line (MatchStyleImportSpec) |
| Patterns.MatchRequire | src/livecodes/compiler/import-map.ts:76 | `requirePattern` tried at the start of a text, reporting the quoted id (MatchRequireSpec) |
| Patterns.HasCjsToken | src/livecodes/compiler/import-map.ts:75 | `/\b(require\|module\|exports)\b/.test(code)`: one of the three words occurs as a whole word |
| Scanning.Scan | src/livecodes/compiler/import-map.ts:7 | `matchAll` with a global pattern: the leftmost match, then on from its end, with the text between kept as gaps (ScanTiles), every match reported (ScanHitsSatisfy) and no match skipped (ScanGapsHoldNoMatch) |
| Scanning.Render | src/livecodes/compiler/import-map.ts:41 | `replace` with a callback: the gaps kept and every match replaced by the callback's result (RenderIdentity, RenderWithoutHits) |
| Scanning.Test | src/livecodes/compiler/import-map.ts:37 | `re.test(s)`: the pattern matches at some index (ScanFindsIffTest) |
| JsStrings.ReplaceFirst | src/livecodes/compiler/import-map.ts:53 | `s.replace(str, repl)`: the first occurrence replaced by the expanded replacement (ReplaceFirstPlain) |
| JsStrings.RemoveAll | src/livecodes/compiler/import-map.ts:63 | `s.replace(/p/g, '')`: every occurrence, scanned left to right, removed (RemoveCharSpec, RemoveAllAbsent) |
| JsStrings.StripQuotes | src/livecodes/compiler/import-map.ts:8 | `.replace(/"/g, '').replace(/'/g, '')` (StripQuotesSpec) |
| JsStrings.Join | src/livecodes/compiler/import-map.ts:104-111 | `xs.join(sep)` (JoinSplit, JoinElement) |
| StyleImports.HasStyleImports | src/livecodes/compiler/import-map.ts:59 | `hasStyleImports`: `styleimportsPattern` matches somewhere (StyleScanSpec) |
| StyleImports.StyleUrl | src/livecodes/compiler/import-map.ts:63 | The URL of a target: `"`, `'`, `url(` and `)` removed in that order (StyleUrlSpec, StyleUrlQuoted, StyleUrlFunction) |
| StyleImports.RewriteStyleStatement | src/livecodes/compiler/import-map.ts:62-70 | The callback of `replaceStyleImports`: the statement kept for a non-bare URL, else the `@import` of the service's URL, inside `@media` when the trimmed media is not empty (StyleLineRewritten, UrlLineRewritten) |
| StyleImports.ReplaceStyleImports | src/livecodes/compiler/import-map.ts:61-71 | `replaceStyleImports`: every `@import` statement replaced by the callback, the text between kept (StyleLineAlone, ReplaceStyleImportsWithout) |
| CommonJs.GetRequires | src/livecodes/compiler/import-map.ts:78-81 | `getRequires`: the first group of every `requirePattern` match, in order, quotes removed (GetRequiresSpec) |
| CommonJs.Imports | src/livecodes/compiler/import-map.ts:87-94 | `imports`: for the `i`-th id the default and the namespace import lines, all joined by line breaks (ImportPairLines, EveryRequireImported) |
| CommonJs.Lookup | src/livecodes/compiler/import-map.ts:95-97 | `lookup`: the object mapping every id to its default or namespace binding (EveryRequireImported) |
| CommonJs.Cjs2Esm | src/livecodes/compiler/import-map.ts:74-112 | `cjs2esm`: the code unchanged without a CommonJS word or a require call, else the six parts joined by blank lines (Cjs2EsmSpec) |
| ImportMap.BareIff | src/livecodes/compiler/import-map.ts:11-17 | A specifier is bare exactly when it starts with none of `https://`, `http://`, `.`, `/`, `data:`, `blob:`, which is exactly when the classification by first prefix says Bare |
| ImportMap.MatchingKeyIsBare | src/livecodes/compiler/import-map.ts:25-27 | A key equal to a bare specifier, or a path prefix of it, is bare itself |
| ImportMap.BareByFirstChar | src/livecodes/compiler/import-map.ts:11-17 | A specifier whose first character can start none of the six prefixes is bare |
| Patterns.LazyUntil | src/livecodes/compiler/import-map.ts:4 | The lazy `.*?` followed by a closing text stops at an occurrence of that text |
| Patterns.LazyUntilFirst | src/livecodes/compiler/import-map.ts:4 | The lazy `.*?` passes over no line terminator and no earlier occurrence of the closing text |
| Patterns.LazyUntilAt | src/livecodes/compiler/import-map.ts:4 | The lazy `.*?` stops at the first occurrence of the closing text when no line end comes before it |
| Patterns.ClauseEnd | src/livecodes/compiler/import-map.ts:4 | The greedy run of `[\w*\s{},\$]` after `import` and a blank: every character from index 7 up to the end is a clause character, and the character at the end, if there is one, is not |
| Patterns.MatchImportSpec | src/livecodes/compiler/import-map.ts:4 | A match of `importsPattern` is a prefix of the text made of its three groups: a clause starting with `import`, a quoted literal with the same quote at both ends and no line end, and `;` or nothing |
| Patterns.ClosedSpec | src/livecodes/compiler/import-map.ts:4 | The groups of a match cover the text up to its end: clause before the quote, the quoted literal, then `;` or nothing |
| Patterns.MatchImportAlone | src/livecodes/compiler/import-map.ts:41-45 | A statement matched inside the code is matched the same way when it stands alone, as the callback re-matches it |
| Patterns.MatchImportFrom | src/livecodes/compiler/import-map.ts:4 | `import <binding> from <q><spec><q>;` is matched as one statement with groups `import <binding> from `, the quoted specifier and `;`, whatever follows |
| Patterns.FromClause | src/livecodes/compiler/import-map.ts:4 | In `import <binding> from <tail>`, the clause characters run up to the tail and the clause ends in `from` |
| Patterns.MatchStyleImportSpec | src/livecodes/compiler/import-map.ts:57 | A match of `styleimportsPattern` starts with `@import` and ends with its two groups and a `;` |
| Patterns.StyleMediaSemicolon | src/livecodes/compiler/import-map.ts:57 | `(.*)?;` ends at a `;`, and its group is the text between the target and that `;` |
| Patterns.MatchStyleQuoted | src/livecodes/compiler/import-map.ts:57 | `@import <q><x><q><media>;` on one line is matched whole, with the quoted target and the media as groups |
| Patterns.MatchStyleUrl | src/livecodes/compiler/import-map.ts:57 | `@import url(<q><x><q>)<media>;` on one line is matched whole, with the `url(...)` target and the media as groups |
| Patterns.LastIndexOf | src/livecodes/compiler/import-map.ts:57 | The greedy `(.*)` before `;` ends at the last `;`: the index found holds the character and none after it does |
| Patterns.MatchRequireSpec | src/livecodes/compiler/import-map.ts:76 | A match of `requirePattern` starts with `require`, and its group is a string opened and closed by the same quote |
| Patterns.CloseCall | src/livecodes/compiler/import-map.ts:76 | The lazy `.*?q\s*\)`: the index found holds `q` followed by blanks and a `)`, no line end comes before it and no such `q` comes earlier; when nothing is found, every such `q` has a line end before it |
| Patterns.CloseCallAt | src/livecodes/compiler/import-map.ts:76 | The lazy id closes right after `x` when a `)` follows the `q` and `x` holds no line end and no earlier closing quote |
| Patterns.CloseCallQuoteFree | src/livecodes/compiler/import-map.ts:76 | The lazy id closes right after `x` when `x` holds no `q` and no line end |
| Patterns.MatchRequireCall | src/livecodes/compiler/import-map.ts:76 | `require(<q><x><q>)` is matched as one call whose group is `<q><x><q>`, whatever follows |
| Scanning.ScanTiles | src/livecodes/compiler/import-map.ts:7 | The gaps and the matches of a scan, put back together, are the scanned text |
| Scanning.ScanFindsIffTest | src/livecodes/compiler/import-map.ts:37 | `re.test(s)` holds exactly when the scan yields a match |
| Scanning.ScanGapsHoldNoMatch | src/livecodes/compiler/import-map.ts:7 | `matchAll` misses no match: no index inside a gap between reported matches is one at which the pattern matches, so every later statement of a text is found as well as the first |
| Scanning.ScanFromNoMatchInGaps | src/livecodes/compiler/import-map.ts:7 | Scanning on from an index with no match since the last reported one leaves no match inside a gap |
| Scanning.ScanHitsSatisfy | src/livecodes/compiler/import-map.ts:7 | A property of every match of the matcher holds for every match of a scan |
| Scanning.RenderIdentity | src/livecodes/compiler/import-map.ts:41 | A `replace` callback that gives every match back leaves the text unchanged |
| Scanning.RenderWithoutHits | src/livecodes/compiler/import-map.ts:41 | With no match, `replace` leaves the text unchanged whatever the callback |
| Scanning.ScanWholeMatch | src/livecodes/compiler/import-map.ts:7 | A text that is one whole match scans as that one match |
| Scanning.HitsFromPieces | src/livecodes/compiler/import-map.ts:7 | Every listed match group comes from a matched piece |
| Scanning.PieceInHits | src/livecodes/compiler/import-map.ts:7 | Every matched piece has its groups listed |
| ImportMap.GetImportsSpec | src/livecodes/compiler/import-map.ts:6-9 | One specifier per statement, in source order, each the second group with every `"` and `'` removed; the statements and the gaps make up the code, and no statement start lies inside a gap |
| ImportMap.HasImportsIff | src/livecodes/compiler/import-map.ts:36-37 | `hasImports` holds exactly when getImports finds a statement or the code contains `export {}` |
| ImportMap.PutGet | src/livecodes/compiler/import-map.ts:34 | After setting a property, it reads the new value and every other property reads as before |
| ImportMap.PutKeys | src/livecodes/compiler/import-map.ts:34 | Setting a property keeps the key order and appends a new key last |
| ImportMap.SpreadGet | src/livecodes/compiler/import-map.ts:34 | After `{...acc, ...curr}`, a key takes its value from `curr` when `curr` has it, and from `acc` otherwise |
| ImportMap.SpreadKeys | src/livecodes/compiler/import-map.ts:34 | `{...acc, ...curr}` has exactly the keys of `acc` and of `curr` |
| ImportMap.SpreadKeepsOrder | src/livecodes/compiler/import-map.ts:34 | `{...acc, ...curr}` keeps the keys of `acc` in place, ahead of the new ones |
| ImportMap.SpreadDistinct | src/livecodes/compiler/import-map.ts:34 | Spread never repeats a key |
| ImportMap.ReduceSnoc | src/livecodes/compiler/import-map.ts:34 | Reducing with one more object is spreading it over the previous result |
| ImportMap.LaterOverwrites | src/livecodes/compiler/import-map.ts:34 | In the merged object, a key takes the value of the last object that has it |
| ImportMap.ReduceKeys | src/livecodes/compiler/import-map.ts:34 | The merged object has exactly the keys of the objects merged |
| ImportMap.ReduceEntries | src/livecodes/compiler/import-map.ts:34 | Every property of the merged object is a property of one of the objects merged |
| ImportMap.ReduceOfEmpties | src/livecodes/compiler/import-map.ts:22-23 | Merging only empty objects leaves the start value |
| ImportMap.FirstMatch | src/livecodes/compiler/import-map.ts:25-27 | `find` reports the first key equal to the specifier or a path prefix of it, and none exists when it reports nothing |
| ImportMap.ContributionSpec | src/livecodes/compiler/import-map.ts:21-32 | A non-bare specifier contributes `{}`. A bare one contributes one entry: the first covering configured key with its configured URL when that key is not empty, and otherwise `{lib: getModuleUrl(lib)}` |
| ImportMap.CreateImportMapSpec | src/livecodes/compiler/import-map.ts:19-34 | The import map has distinct keys; every bare specifier's contribution is in it; every entry is the contribution of a bare specifier of the code, with a bare key |
| ImportMap.FallbackResolved | src/livecodes/compiler/import-map.ts:31 | A bare specifier no configured key covers maps to the service's URL for it, under its own name |
| ImportMap.ConfiguredContribution | src/livecodes/compiler/import-map.ts:25-29 | A non-empty configured key that covers a bare specifier is what the specifier contributes |
| ImportMap.FallbackContribution | src/livecodes/compiler/import-map.ts:31 | With nothing configured, a bare specifier contributes itself and the service's URL |
| ImportMap.LibNameOfStatement | src/livecodes/compiler/import-map.ts:42-45 | Re-matching a statement and keeping `$2` without quotes gives the specifier getImports reported |
| ImportMap.RewriteOfScannedStatements | src/livecodes/compiler/import-map.ts:41-53 | Each matched statement is its three groups, and the callback rewrites it for the specifier getImports saw |
| ImportMap.ReplaceImportsWithoutImports | src/livecodes/compiler/import-map.ts:39-55 | Code with no import statement is returned unchanged |
| ImportMap.ReplaceImportsNonBareOnly | src/livecodes/compiler/import-map.ts:39-55 | Code whose specifiers are all non-bare gets an empty map and is returned unchanged |
| ImportMap.RewriteForSpec | src/livecodes/compiler/import-map.ts:47-53 | A statement with no non-empty covering key is kept. Otherwise the first occurrence of the key anywhere in the statement becomes the key's URL, and the text before and after it is kept |
| ImportMap.RewriteWithOneKey | src/livecodes/compiler/import-map.ts:47-53 | With a one-key map whose key covers the specifier, the callback is `statement.replace(key, url)` |
| ImportMap.ScanOneImport | src/livecodes/compiler/import-map.ts:4 | A lone `import <binding> from <q><spec><q>;` scans as one match with the expected groups |
| ImportMap.ReplaceOneImport | src/livecodes/compiler/import-map.ts:19-55 | For a lone statement, getImports reports its specifier, the map is that specifier's contribution, and replaceImports is the callback on the statement |
| ImportMap.ReplaceKeyOfSpecifier | src/livecodes/compiler/import-map.ts:53 | When the key starts the specifier, holds no quote of the statement and does not occur in `import <binding> from <q>`, the key inside the specifier becomes the URL and the rest of the statement is kept |
| ImportMap.SubpathRewritten | src/livecodes/compiler/import-map.ts:39-55 | Under `{key: url}`, `import x from "key/sub";` becomes `import x from "url/sub";` when the key does not occur in `import x from "` (as in `import React from "react"` or `import debounce from "lodash/debounce"`) |
| ImportMap.BindingRewritten | src/livecodes/compiler/import-map.ts:53 | As written: `import lib from "lib";` with nothing configured, for a word name that does not occur in `import ` (`react`, `preact`, `moment`, `axios`, ...), becomes `import <url> from "lib";`; the binding name is replaced, not the specifier |
| ImportMap.AxiosBindingRewritten | src/livecodes/compiler/import-map.ts:53 | As written: `import axios from "axios";` becomes `import <url> from "axios";` |
| ImportMap.ReplaceBindingName | src/livecodes/compiler/import-map.ts:53 | For a name without a blank that does not occur in `import `, the first occurrence of the name used as the binding is the binding |
| ImportMap.KeywordPartRewritten | src/livecodes/compiler/import-map.ts:53 | As written: `import port from "port";` with nothing configured becomes `im<url> port from "port";`: a name inside the keyword breaks the keyword |
| ImportMap.ReplaceKeywordPart | src/livecodes/compiler/import-map.ts:53 | `port` is first found at index 2 of `import port from "port";`, inside the keyword |
| ImportMap.RewriteSpecifierSpec | src/livecodes/compiler/import-map.ts:47-53 | Corrected callback: clause, quotes and terminator are kept; the specifier becomes the covering key's URL plus what follows the key in it; with no covering key the statement is kept |
| ImportMap.ReplaceInQuoted | src/livecodes/compiler/import-map.ts:53 | Replacing a prefix of a quote-free quoted specifier changes only the text inside the quotes |
| ImportMap.SpecifierRewrittenAlone | src/livecodes/compiler/import-map.ts:39-55 | Corrected rewriting of a lone statement: non-bare or empty specifiers are kept; otherwise the specifier becomes its map entry's URL followed by its part after the key, with the clause untouched |
| ImportMap.BindingKept | src/livecodes/compiler/import-map.ts:53 | Corrected: `import lib from "lib";` becomes `import lib from "<url>";` |
| ImportMap.SubpathKept | src/livecodes/compiler/import-map.ts:39-55 | Corrected: under `{key: url}`, `key/sub` becomes `url/sub` whatever the binding |
| JsStrings.ReplaceFirstPlain | src/livecodes/compiler/import-map.ts:53 | `s.replace(str, repl)` with no `$` in `repl` keeps a text without `str`, and otherwise puts `repl` in place of the first occurrence |
| JsStrings.SubstitutionPlain | src/livecodes/compiler/import-map.ts:53 | A replacement without `$` stands for itself |
| JsStrings.IndexOfAfterLast | src/livecodes/compiler/import-map.ts:53 | A text is first found right after a prefix that does not contain it and whose last character it does not hold |
| JsStrings.IndexOf | src/livecodes/compiler/import-map.ts:53 | The index found is an occurrence, with none before it; no index means no occurrence |
| JsStrings.StripQuotesSpec | src/livecodes/compiler/import-map.ts:8 | Removing `"` then `'` leaves no quote, keeps every other character, and is the identity on quote-free text |
| JsStrings.StripQuotesQuoted | src/livecodes/compiler/import-map.ts:44-45 | Removing the quotes around a quote-free text gives it back |
| JsStrings.RemoveCharSpec | src/livecodes/compiler/import-map.ts:63 | `s.replace(/c/g, '')` removes every `c` and keeps every other character |
| JsStrings.RemoveAllAbsent | src/livecodes/compiler/import-map.ts:63 | Removing a pattern that does not occur leaves the text unchanged |
| JsStrings.RemoveLeading | src/livecodes/compiler/import-map.ts:63 | A pattern at the start of the text is removed, and removal goes on after it |
| JsStrings.Trim | src/livecodes/compiler/import-map.ts:65 | `trim()` is the text between a prefix of blanks and a suffix of blanks; it is empty exactly when the text is all blanks, and otherwise starts and ends with a non-blank, so the prefix and suffix removed are the longest ones |
| JsStrings.TrimOfTrimmed | src/livecodes/compiler/import-map.ts:65 | A text that starts and ends with a non-blank is its own trim |
| JsStrings.TrimLeading | src/livecodes/compiler/import-map.ts:65 | Blanks before a trimmed text are what `trim` removes |
| JsStrings.JoinSplit | src/livecodes/compiler/import-map.ts:104-111 | A join is the join of a prefix, the separator, and the join of the rest |
| JsStrings.JoinElement | src/livecodes/compiler/import-map.ts:87-97 | Every element of a join appears in it |
| JsStrings.NatToString | src/livecodes/compiler/import-map.ts:90-91 | An index is rendered as a non-empty string of decimal digits |
| JsStrings.DecimalRoundTrip | src/livecodes/compiler/import-map.ts:90-91 | Reading back the rendered index gives the index |
| JsStrings.NatToStringInjective | src/livecodes/compiler/import-map.ts:90-91 | Different indices are rendered differently |
| StyleImports.StyleScanSpec | src/livecodes/compiler/import-map.ts:57-59 | `hasStyleImports` holds exactly when the scan finds a statement; the statements and gaps make up the stylesheet; each statement starts with `@import` and ends with its groups and `;`; no statement start lies inside a gap |
| StyleImports.StyleUrlSpec | src/livecodes/compiler/import-map.ts:63 | The URL read from the target has no quote and no `)` |
| StyleImports.StyleUrlQuoted | src/livecodes/compiler/import-map.ts:63 | A quoted target gives back the text between its quotes |
| StyleImports.StyleUrlFunction | src/livecodes/compiler/import-map.ts:63 | A `url('...')` or `url("...")` target gives back the text between its quotes |
| StyleImports.ReplaceStyleImportsWithout | src/livecodes/compiler/import-map.ts:61-71 | A stylesheet with no `@import` is returned unchanged |
| StyleImports.ReplaceStyleImportsNonBareOnly | src/livecodes/compiler/import-map.ts:66-67 | A stylesheet whose imported URLs are all non-bare is returned unchanged |
| StyleImports.ImportOfIsStyleLine | src/livecodes/compiler/import-map.ts:64 | The statement built for a URL is a one-line `@import` of it in double quotes, with no media |
| StyleImports.StyleLineAlone | src/livecodes/compiler/import-map.ts:61-71 | A lone statement is rewritten by the callback on its groups, and its URL is the text in its quotes |
| StyleImports.StyleLineRewritten | src/livecodes/compiler/import-map.ts:62-70 | A lone statement: kept when its URL is not bare; otherwise `@import "<getModuleUrl(url, false)>";`, wrapped as `@media <m> {\n...\n}` exactly when the trimmed media `m` is not empty |
| StyleImports.UrlLineAlone | src/livecodes/compiler/import-map.ts:61-71 | A lone `url(...)` statement is rewritten by the callback on its groups, and its URL is the text in its quotes |
| StyleImports.UrlLineRewritten | src/livecodes/compiler/import-map.ts:62-70 | A lone `@import url(<q><x><q>)<media>;`: kept when `x` is not bare; otherwise `@import "<getModuleUrl(x, false)>";`, wrapped as `@media <m> {\n...\n}` exactly when the trimmed media `m` is not empty |
| StyleImports.MediaExample | src/livecodes/compiler/import-map.ts:65-69 | `@import '<x>' <m>;` with bare `x` becomes `@media <m> {\n@import "<url>";\n}` |
| StyleImports.RewriteTwice | src/livecodes/compiler/import-map.ts:61-71 | Rewriting a bare import without media twice is rewriting it once, when the resolved URL is not bare |
| CommonJs.GetRequiresSpec | src/livecodes/compiler/import-map.ts:78-83 | One id per `require` call, in order, each the quoted group with quotes removed; there is an id exactly when the call pattern matches somewhere; the calls and the gaps make up the code, and no call start lies inside a gap |
| CommonJs.NoRequireWord | src/livecodes/compiler/import-map.ts:76-83 | Code without the text `require` has no require calls |
| CommonJs.RequireCallAt | src/livecodes/compiler/import-map.ts:76 | A require call found at an index spells `require` there |
| CommonJs.Cjs2EsmSpec | src/livecodes/compiler/import-map.ts:74-112 | The code is returned unchanged exactly when it has no `require`/`module`/`exports` word or no require call. Otherwise the output is exactly the imports, the lookup, the require shim, the module shim, the code and the default export joined by blank lines: it starts with the four prelude parts and ends with a blank line, the whole code, a blank line and the default export |
| CommonJs.ConvertedShape | src/livecodes/compiler/import-map.ts:104-111 | The six-part join starts with the four prelude parts, ends with the code and the default export, and is longer than them |
| CommonJs.NoRequireUnchanged | src/livecodes/compiler/import-map.ts:75-85 | Code without the text `require`, such as a module that only assigns `module.exports`, is returned unchanged |
| CommonJs.BindingsDistinct | src/livecodes/compiler/import-map.ts:87-97 | Different indices get different default and namespace names, and no default name is a namespace name |
| CommonJs.ImportPairLines | src/livecodes/compiler/import-map.ts:87-93 | The pair of an id holds its default import line and its namespace import line |
| CommonJs.EveryRequireImported | src/livecodes/compiler/import-map.ts:87-111 | For every required id at index `i`, repeats included, the output holds `import __requires_i_default from '<id>';`, `import * as __requires_i from '<id>';` and its lookup entry |
| CommonJs.LoneRequire | src/livecodes/compiler/import-map.ts:75-83 | `require(<q><x><q>)` passes the word test and requires exactly `x` |
| CommonJs.LoneRequireConverted | src/livecodes/compiler/import-map.ts:74-112 | `require('<x>')` becomes the two imports of `x` as module 0, a one-entry lookup, the shims, the call and the default export |
| CommonJs.OneRequireParts | src/livecodes/compiler/import-map.ts:87-97 | The imports and the lookup of a single id, written out |
| CommonJs.NamesOfZero | src/livecodes/compiler/import-map.ts:90-91 | Module 0 is named `__requires_0_default` and `__requires_0` |

## Left out

- `modulesService.getModuleUrl` is a parameter (`Resolver`); what it returns is not modelled.
- `Object.keys` lists integer-like keys first, in numeric order. The model keeps insertion order for every key.
- The `Config` type and the rest of `config` are not modelled; only `config.imports`, as an ordered table of strings.
- A media group that did not take part in the match (`undefined`) is modelled as "", which `?.trim()` treats as just as falsy.
- The generated `window.require` shim is produced as text only; what it does when it runs is not modelled.
- The regular expressions are modelled by matchers for these three patterns only, not by a general regular-expression engine. Characters are Unicode scalar values, not UTF-16 code units: a character outside the Basic Multilingual Plane is one element of a string here and two in JavaScript, and a lone surrogate cannot be represented, so indices and lengths differ from JavaScript on such text.
- ImportMap.RewriteForSpec: requires a URL without `$`; the model expands `$$`, `$&`, `` $` `` and `$'` in a replacement (`JsStrings.Substitution`), but this lemma does not state the result of that expansion.
- ImportMap.ReplaceKeyOfSpecifier: requires a URL without `$`; the model expands `$$`, `$&`, `` $` `` and `$'` in a replacement (`JsStrings.Substitution`), but this lemma does not state the result of that expansion.
- ImportMap.SubpathRewritten: requires a URL without `$`; the model expands `$$`, `$&`, `` $` `` and `$'` in a replacement (`JsStrings.Substitution`), but this lemma does not state the result of that expansion.
- ImportMap.AxiosBindingRewritten: requires a URL without `$`; the model expands `$$`, `$&`, `` $` `` and `$'` in a replacement (`JsStrings.Substitution`), but this lemma does not state the result of that expansion.
- ImportMap.ReplaceBindingName: also requires a name without a blank that does not occur in `import `; a name that does, such as `port`, is covered by `ImportMap.ReplaceKeywordPart` for that one name, not in general.
- ImportMap.ReplaceBindingName: requires a URL without `$`; the model expands `$$`, `$&`, `` $` `` and `$'` in a replacement (`JsStrings.Substitution`), but this lemma does not state the result of that expansion.
- ImportMap.RewriteSpecifierSpec: requires the URL of the covering key to hold no `$`; the model expands `$$`, `$&`, `` $` `` and `$'` in a replacement (`JsStrings.Substitution`), but this lemma does not state the result of that expansion.
- ImportMap.ReplaceInQuoted: requires a URL without `$`; the model expands `$$`, `$&`, `` $` `` and `$'` in a replacement (`JsStrings.Substitution`), but this lemma does not state the result of that expansion.
- ImportMap.BindingRewritten: also requires a name that does not occur in `import `; for a name that does, such as `port`, the keyword is rewritten instead, which `ImportMap.KeywordPartRewritten` states for that one name, not in general.
- ImportMap.KeywordPartRewritten: requires a URL without `$`; the model expands `$$`, `$&`, `` $` `` and `$'` in a replacement (`JsStrings.Substitution`), but this lemma does not state the result of that expansion.
- ImportMap.ReplaceKeywordPart: requires a URL without `$`; the model expands `$$`, `$&`, `` $` `` and `$'` in a replacement (`JsStrings.Substitution`), but this lemma does not state the result of that expansion.
- ImportMap.BindingRewritten: requires a URL without `$`; the model expands `$$`, `$&`, `` $` `` and `$'` in a replacement (`JsStrings.Substitution`), but this lemma does not state the result of that expansion.
- ImportMap.SpecifierRewrittenAlone: requires a URL without `$`; the model expands `$$`, `$&`, `` $` `` and `$'` in a replacement (`JsStrings.Substitution`), but this lemma does not state the result of that expansion.
- ImportMap.BindingKept: requires a URL without `$`; the model expands `$$`, `$&`, `` $` `` and `$'` in a replacement (`JsStrings.Substitution`), but this lemma does not state the result of that expansion.
- ImportMap.SubpathKept: requires a URL without `$`; the model expands `$$`, `$&`, `` $` `` and `$'` in a replacement (`JsStrings.Substitution`), but this lemma does not state the result of that expansion.
- StyleImports.RewriteTwice: idempotence is proved only for a lone import without media whose resolved URL is not bare; an `@media` block whose inner import is bare would be rewritten again.

## Findings

| source | as written | input that shows it | evidently intended | confidence | as-written member | corrected member |
|---|---|---|---|---|---|---|
| src/livecodes/compiler/import-map.ts:53 | `statement.replace(key, importMap[key])` replaces the first occurrence of the key anywhere in the statement, which can be the binding name or part of the `import` keyword | `import axios from "axios";` with no configured key: the binding `axios` becomes the URL and the specifier stays `"axios"`; `import port from "port";` becomes `im<url> port from "port";` | replace the key inside the quoted specifier only, keeping the clause and the rest of the path | not executed | ImportMap.BindingRewritten | ImportMap.BindingKept |
