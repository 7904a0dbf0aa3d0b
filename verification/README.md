# desertnet/scanner, modelled in Dafny

A model of the regex-driven lexer desertnet/scanner. It covers both generations of the library, with regular-expression matching treated as an abstract anchored matcher.

- **The legacy `Scanner`** (`lib/Scanner.js`, with its inner `TokenDescriptor`, `Dialect`, `Token` and `ScannerError`). It keeps a registry of named dialects, the dialect in use, a stack of dialect names and a cursor (`pos`, `line`, `column`) over a source string.
  - `nextToken` tries the descriptors in order. The first one whose match starts exactly at the cursor wins.
  - The cursor then moves past the match, or one unit further on an empty match. Line and column follow the matched text.
  - Failures throw a `ScannerError` that records where the cursor stood.
- **`LineNumberMap`**. It indexes text chunk by chunk, recording one inclusive interval per terminated line, and answers line and column queries for an offset.
- **The `src/lib` building blocks**, each modelled against its own code:
  - `TokenDefinition`'s validation;
  - `Dialect.getDescriptor`;
  - the candidate collectors `BufferedTokenizer` and `BufferedRegExpTokenizer`;
  - longest-candidate selection in `BufferedScanner` and `BufferedRegExpScanner`;
  - the position bookkeeping of the `Scanner` generator;
  - `TokenizerCache` memoisation;
  - `Token`'s getters and `toString`;
  - `wholeCharLength`, the surrogate-pair width test of section 2.2 of RFC 2781.

Conventions:
- Strings are sequences of UTF-16 code units (`Strings.Text`).
- A compiled regex is data (`RegExps.RegExp`: pattern source and flags). The engine is a parameter `m: Matcher`: `m(r, s, o)` is the end of the match of `r` starting exactly at offset `o`, or `None`. Its one axiom is `o <= end <= |s|`.
- A global `exec` is the leftmost anchored match at or after `lastIndex` (`RegExps.Exec`). A sticky one only tries `lastIndex`.
- The fixed regexes the code relies on for line breaks are written out as functions on code units (`LineBreaks`):
  - `/\r\n|\r|\n/g`;
  - `/(?:\r\n|\r|\n).*?$/m`;
  - `/.*?(?:\r\n|\r|\n)/y`.
- These follow ECMA-262's LineTerminator set (section 12.3, 2022 edition). Regex `.` and multiline `$` stop at LINE SEPARATOR (U+2028) and PARAGRAPH SEPARATOR (U+2029) as well as at CR and LF.
- `LegacyScanner.NextToken` takes a column rule. `AsWritten` is lib/Scanner.js as it stands. `Corrected` swaps in the intended column update of the first Finding below, and the draining results about the column are stated for it.
- Every mutating method is a pure function from the old state to the new state plus what the call returned or threw. A mutation made before a throw is kept: `pushDialect` pushes before `setDialect` throws.
- Object identity, where it matters, is an explicit key:
  - dialects in the tokenizer cache (`TokenizerCaches.DialectRef`);
  - definition objects in a tokenizer's `Map` (`Tokenizers.DefObject`).

Files, one module each:
- `strings.dfy`
- `wrappers.dfy`
- `regexps.dfy`
- `line_breaks.dfy`
- `dialects.dfy` (`TokenDescriptor`, `Dialect`)
- `legacy_scanner.dfy`
- `line_number_map.dfy` (module `LineIndex`)
- `token_definition.dfy`
- `tokenizers.dfy`
- `tokenizer_cache.dfy`
- `buffered_scanners.dfy`
- `generator_scanner.dfy`
- `token.dfy`
- `whole_char_length.dfy`

## Model

| member | source | states |
|---|---|---|
| LegacyScanner.New | lib/Scanner.js:55-75 | A single list is registered as dialect "main" and selected. A name-keyed object registers every name and selects one only when exactly one was given. Construction succeeds exactly when the names are distinct and every list is well formed. The result is a valid scanner with no source, counters at 0 and an empty stack. A failure carries those initial counters. |
| LegacyScanner.NewByName | lib/Scanner.js:63-74 | Registers exactly the given names and selects the single one when there is one. It succeeds exactly when the names are distinct and all lists are well formed. Nothing but the registry and the selection differs from the initial state. |
| LegacyScanner.AddAll | lib/Scanner.js:66-68 | The `forEach` of `addDialect` stops at the first throw. It succeeds exactly when every name is new and distinct and every list is well formed. On success the registry gains exactly those names, old entries and every other field are untouched, and validity is kept. |
| LegacyScanner.CollectDescriptors | lib/Scanner.js:188-216 | The loop succeeds exactly when every descriptor object has at most one pair and no type repeats, including types seen earlier. It yields the collected descriptors followed by one normalised descriptor per pair, in order. Otherwise it throws at the cursor, at the first object the loop cannot get past. If that object's first type was seen before, the error is the duplicate-type error naming that type, because the duplicate check runs before a second pair is looked at. Otherwise the error is the more-than-one-pair error. |
| LegacyScanner.CreateDialect | lib/Scanner.js:187-219 | It succeeds exactly when every object has at most one pair and types are distinct. The dialect carries the given name and one normalised descriptor per pair, in order, so its types are distinct. Empty objects contribute nothing. Otherwise it throws at the first offending object: the duplicate-type error naming its first type when that type was seen before, otherwise the more-than-one-pair error. |
| LegacyScanner.CreateDialectErrorOrder | lib/Scanner.js:197-208 | The duplicate check on an object's first type comes before the check for a second pair. A repeated type followed by a second pair names the type; a fresh type followed by a second pair gives the more-than-one-pair error. |
| LegacyScanner.AddDialect | lib/Scanner.js:119-126 | It succeeds exactly when the name is new and the list well formed. Then the registry gains exactly that name, mapped to the created dialect, and nothing else changes. An existing name throws the already-exists error. Any failure leaves the scanner unchanged, and validity is kept. |
| LegacyScanner.SetDialect | lib/Scanner.js:135-146 | `null` deselects. A registered name selects that dialect, so `currentDialect` returns the name. An unknown name throws the no-such-dialect error and changes nothing. Only the selection ever changes, and validity is kept. |
| LegacyScanner.PushDialect | lib/Scanner.js:154-159 | The stack gains the current dialect's name only when one is selected, even when the new name is unknown and the call throws. It succeeds exactly when the name is registered, and the name then becomes current. On a throw the selection is unchanged. |
| LegacyScanner.PopDialect | lib/Scanner.js:166-168 | An empty stack deselects. Otherwise the top is removed and selected, and an empty name selects none. On a valid scanner the call never throws and keeps validity. Only the stack and the selection change. |
| LegacyScanner.PushPopRoundTrip | lib/Scanner.js:154-168 | Pushing a registered dialect and popping restores the scanner exactly. This holds when a dialect with a non-empty name was selected, or when none was selected and the stack was empty. |
| LegacyScanner.PushWithoutDialectForgets | lib/Scanner.js:154-168 | With no dialect selected nothing is pushed, so pop returns to the name stacked before rather than to "no dialect". |
| LegacyScanner.SetSource | lib/Scanner.js:82-93 | The source is set, the cursor goes to index 0, line 1, column 1, and the stack is emptied. The registry is unchanged. The selection is cleared exactly when more than one dialect is registered. Validity is kept. |
| LegacyScanner.CurrentDialect | lib/Scanner.js:100-102 | `currentDialect()` is `null` exactly when no dialect is selected. On a valid scanner, the name it returns looks up the very dialect in use. |
| LegacyScanner.DialectNamesListRegistry | lib/Scanner.js:109-111 | `dialects()` lists exactly the registered names. On a valid scanner each names the dialect it registers, and the current dialect's name is among them. |
| LegacyScanner.Resolve | lib/Scanner.js:247-258 | `expectedTokens` resolves, in its order, to the descriptors `getDescriptor` finds. Otherwise the result is the index of the first unknown name, every earlier name being known. |
| LegacyScanner.FirstMatch | lib/Scanner.js:260-271 | The winner is the first descriptor, in list order, whose match starts exactly at `pos`, together with that match's end. There is none exactly when no descriptor matches at `pos`. Matches found further down the string are skipped. |
| LegacyScanner.NextToken | lib/Scanner.js:229-321 | It throws dialect-not-set, then source-not-set, in that order. It returns `null` exactly at the end of the source, changing nothing. An unknown expected name throws, except at the end of the source. Every throw leaves the scanner as it was and carries its cursor. A token is the source text at `pos`. Its line already includes the match's breaks, counted with CRLF once, while its column is the old column. The cursor moves past the match, one further on an empty match, and stays inside the source. The new column is given by the rule argument: `AsWritten` is the code's first-break update (`ColumnAfterAsWritten`), and `Corrected` is the intended update of the first Finding (`ColumnAfter`). Only the cursor changes. |
| LegacyScanner.NextTokenFirstMatch | lib/Scanner.js:260-318 | With the searched list resolved, no matching descriptor gives the unexpected-character error. A first matching descriptor gives a token of its type whose value ends at that match's end. |
| LegacyScanner.NextTokenUnmatched | lib/Scanner.js:317-318 | The unexpected-character error is thrown exactly when no searched descriptor matches at `pos`. |
| LegacyScanner.NextTokenWinner | lib/Scanner.js:260-313 | Any token comes from a descriptor whose match starts at `pos` and spans the token's value, with no earlier descriptor matching there. |
| LegacyScanner.NextTokenKeepsValid | lib/Scanner.js:229-321 | `nextToken` keeps a valid scanner valid. |
| LegacyScanner.NextTokenStep | lib/Scanner.js:229-321 | On a valid scanner before the end of the source, a call either throws the unexpected-character error in place, or yields a token that advances the cursor by the chosen column rule and keeps the scanner valid. |
| LegacyScanner.Pull | lib/Scanner.js:229-321 | One `nextToken()` of a draining loop under a given column rule, with the facts the loop needs. |
| LegacyScanner.Tokenize | lib/Scanner.js:229-321 | Calling `nextToken()` until it returns `null` or throws gives tokens that each hold the source text at their index. Each token starts where the previous one left the cursor and carries the line reached after its breaks. Without empty matches the tokens spell the source exactly from the starting index. The final column is the column over that text under the `Corrected` rule, and under the code's `AsWritten` rule as long as the text holds no break. The loop ends at the end of the source or with the unexpected-character error at the last cursor. |
| LegacyScanner.DrainStep | lib/Scanner.js:260-310 | One more token keeps every fact of the drain invariant, for either column rule. The invariant's column fact holds for any text under `Corrected`, and only for break-free text under `AsWritten`. |
| LegacyScanner.AppendCovers | lib/Scanner.js:288-295 | Tokens that spell the source up to the cursor, followed by the token at the cursor, spell it up to the new cursor. Under the `Corrected` rule the column reached is the column over the whole text. Under the code's `AsWritten` rule that holds only while the text has no CR or LF, since the code's update depends on where the text is cut. |
| LegacyScanner.ColumnAfterAsWritten | lib/Scanner.js:288-295 | The code's column update. A match without CR or LF adds its length to the column. After a match with one, the column less one is the number of units that follow the FIRST break. None of those units is a line terminator (CR, LF, LS, PS), and the unit after them, if any, is one. |
| LegacyScanner.ColumnAfter | lib/Scanner.js:288-295 | The intended column update. A match without CR or LF adds its length. A match with one leaves the column at one past the units after its last break. |
| LegacyScanner.ColumnAfterConcat | lib/Scanner.js:288-295 | Updating the column match by match equals updating it over the matches' concatenation, so the column does not depend on how the text was cut into tokens. |
| LegacyScanner.ColumnAfterAsWrittenCounterexample | lib/Scanner.js:274-295 | As written, the match "\n \n  " leaves column 2, where the intended update gives 3. The same text as the two matches "\n " and "\n  " gives 3 as written. |
| LegacyScanner.ColumnRulesAgree | lib/Scanner.js:288-295 | The code's update and the intended one agree on every match in which nothing after the first break ends a line. That covers every match with at most one break and no LS or PS after it. |
| Dialects.NewDescriptor | lib/TokenDescriptor.js:7-17 | The type is kept and the pattern source is kept. The flags are always `g` and `m`, plus `i` exactly when the given regex ignored case. Every other flag is dropped. |
| Dialects.NewDescriptorIdempotent | lib/TokenDescriptor.js:7-17 | Normalising twice changes nothing: a descriptor rebuilt from its own type and regex is the same descriptor. |
| Dialects.NewDescriptorForgetsOtherFlags | lib/TokenDescriptor.js:7-17 | Two regexes give the same descriptor exactly when they have the same source and agree on ignoring case. |
| Dialects.GetDescriptor | src/lib/Dialect.js:51-63 | The result has the requested type, and it is `null` exactly when no descriptor has that type. It equals the last descriptor of that type in the list. |
| Dialects.HashAgreesWithScan | src/lib/Dialect.js:54-62 | The lazily built hash finds a type exactly when a scan of the list from the back does, and finds the same descriptor. |
| Dialects.GetDescriptorUnique | lib/Scanner.js:431-443 | With distinct types, which `createDialect` guarantees, each descriptor is what `getDescriptor` returns for its type. |
| LineBreaks.CountBreaksByUnits | lib/Scanner.js:274-276 | The number of `/\r\n|\r|\n/g` matches, plus the number of CRLF pairs, equals the number of CR units plus LF units. |
| LineBreaks.CountBreaksConcat | lib/Scanner.js:274-277 | The break count of a concatenation is the sum of the parts' counts, less one when a CRLF is split between them. |
| LineBreaks.SegmentAfterFirstBreak | lib/Scanner.js:292-293 | The column segment runs from just after the first break to just before the next line terminator (CR, LF, LS or PS) or the end of the text. |
| LineBreaks.LineEnd | src/lib/LineNumberMap.js:13-17 | The sticky line regex, started at `p`, ends strictly after `p` and inside the text. |
| LineBreaks.LineEndFacts | src/lib/LineNumberMap.js:13-17 | A line the regex finds ends just after a CR or LF and holds exactly one break. It never ends between the CR and LF of a CRLF. The regex fails exactly when the first line terminator from `p` on is missing, LS or PS. |
| LineIndex.New | src/lib/LineNumberMap.js:4-10 | The map built from a first chunk is valid for that chunk. Its intervals tile the text up to the last line's start, numbered 1, 2, 3…, each ending on a CR or LF. The counters account for the whole chunk, and `lineNumber` is one more than the intervals. |
| LineIndex.AddChunk | src/lib/LineNumberMap.js:12-31 | Adding a chunk to a map valid for a text gives a map valid for the text followed by the chunk. Earlier intervals are kept as they were. |
| LineIndex.ScanValid | src/lib/LineNumberMap.js:17-30 | Each iteration of the `while` loop keeps the map valid for the text seen so far. |
| LineIndex.Find | src/lib/LineNumberMap.js:33-43 | The interval search finds the first interval holding the offset, or none exactly when no interval holds it. |
| LineIndex.Queries | src/lib/LineNumberMap.js:33-43 | Inside the indexed lines, the line number is that of the unique interval holding the offset, and the column is the offset less its start, plus one. Elsewhere (a negative offset, or one on or after the last line's start) the answers are the running `lineNumber` and the distance from the last line's start, plus one. Every offset from 0 on has a column of at least 1. |
| LineIndex.LineNumberCountsBreaks | src/lib/LineNumberMap.js:12-31 | For a text without LS or PS, indexed in one go, `lineNumber` is one more than its `\r\n\|\r\|\n` breaks, and there is one interval per break. |
| LineIndex.QueriesCountBreaks | src/lib/LineNumberMap.js:12-43 | For a text without LS or PS, the line of an offset is one more than the breaks before it. Its column is one more than its distance from the end of the last of them. The only exception is an offset between a CR and its LF. |
| LineIndex.ScanAgrees | src/lib/LineNumberMap.js:17-30 | Scanning from a line start agrees, at every offset, with that direct reading of the whole text. |
| LineIndex.ScanSplit | src/lib/LineNumberMap.js:12-31 | Scanning text `a` and then chunk `b` equals scanning `a + b`, provided the rest of `a` has no LS or PS and `b` does not start with the LF of a CR ending `a`. |
| LineIndex.ChunkedAgrees | src/lib/LineNumberMap.js:12-31 | Indexing chunk by chunk gives the same map as indexing the whole text in one go, whenever the text holds no LS or PS and no chunk boundary falls inside a CRLF. A line spanning chunks is then one interval from its true start. |
| LineIndex.SingleChunkAgrees | src/lib/LineNumberMap.js:4-31 | A text given as one chunk is indexed exactly as the whole text, with no condition on what it holds. |
| LineIndex.LineNumberExample | test/LineNumberMapTest.js:9-13 | In "one\ntwo\nthree\nfour\nfive", indexed in one chunk, offsets 0, 1, 4 and 20 are on lines 1, 1, 2 and 5. |
| LineIndex.SplitCrLfCounterexample | src/lib/LineNumberMap.js:13-30 | A boundary between CR and LF counts two lines: "a\r" then "\nb" reaches line 3, where "a\r\nb" in one chunk reaches line 2. |
| LineIndex.SeparatorEndsScan | src/lib/LineNumberMap.js:13-30 | An LS or PS before the next CR or LF ends the scan of the chunk. The rest of the chunk joins the unterminated last line. |
| LineIndex.SeparatorCounterexample | src/lib/LineNumberMap.js:13-30 | "a<LS>\n" then "b\n" reaches line 2, while the same text in one chunk stays on line 1. |
| Tokens.Type | src/lib/Token.js:18 | `type` is the explicit type when it is truthy (a symbol, or a non-empty string), otherwise the definition's identifier. |
| Tokens.Slice | src/lib/Token.js:22-24 | `slice` of an in-range `[start, end)` is that subsequence. Out-of-range and negative indices are clamped as `String.prototype.slice` does, and a reversed range is empty. |
| Tokens.SliceJoin | src/lib/Token.js:22-24 | Adjacent in-range slices join into one, and the full range is the whole string. |
| Tokens.Value | src/lib/Token.js:22-24 | `value` is the subject's `[start, end)`, of length `end - start` when `0 <= start <= end <= |subject|`. It is empty for a reversed non-negative range. |
| Tokens.EscapeIsOnePass | src/lib/Token.js:35-38 | The three global replacements (CR, then LF, then `'`) act as one pass that escapes each unit on its own. |
| Tokens.EscapedHasNoNewline | src/lib/Token.js:35-38 | The escaped value holds no CR and no LF. |
| Tokens.UnescapeEscape | src/lib/Token.js:35-38 | For a value without backslashes, reading the escaped text back gives the value. |
| Tokens.EscapeNotInjective | src/lib/Token.js:35-38 | Existing backslashes are left alone, so a CR and the two units `\r` print the same. |
| Tokens.DigitsRoundTrip | src/lib/Token.js:39 | The decimal digits printed for a number read back as that number. |
| Tokens.FieldsOneLine | src/lib/Token.js:39 | The text before the value has no line break when the type's rendering has none. |
| Tokens.ToStringLayout | src/lib/Token.js:34-40 | `toString` ends with the escaped value followed by `' }`. When the type's rendering has no line break, the whole string is one line. |
| TokenDefinitions.Render | src/lib/TokenDefinition.js:11 | `identifier.toString()` is the string itself for a string, and `Symbol(` + description + `)` for a symbol. |
| TokenDefinitions.NewDefinition | src/lib/TokenDefinition.js:4-23 | The checks run in order, and the first that fails decides the error. A non-string pattern throws `TypeError`. A pattern that does not compile throws an error naming the identifier and the engine's message. A primitive `flags` throws. An `ignoreCase` entry that is not a boolean throws, including an explicit `null` or `undefined`. On success, identifier and pattern are stored unchanged, and `ignoreCase` is true exactly when the entry is `true`. |
| TokenDefinitions.Rebuild | src/lib/TokenDefinition.js:20-22 | Passing a definition's own fields back rebuilds it unchanged, and leaving the flags out gives `ignoreCase` false. |
| TokenDefinitions.InvalidMessageNamesIdentifier | src/lib/TokenDefinition.js:9-12 | The invalid-pattern message holds the identifier's rendering and then the engine's message. |
| Tokenizers.MapKeys | src/lib/BufferedTokenizer.js:15-23 | The `Map`'s keys are the given objects, each exactly once. |
| Tokenizers.MapKeysAreFirstOccurrences | src/lib/BufferedTokenizer.js:15-23 | An object listed twice keeps one entry, at its first position. Distinct objects keep separate entries, in order. |
| Tokenizers.FirstRejected | src/lib/BufferedTokenizer.js:16-19 | Locates the first element the loop rejects. Every element before it is accepted. |
| Tokenizers.Collect | src/lib/BufferedTokenizer.js:15-23 | The loop succeeds exactly when every element is an accepted definition. Otherwise it throws the error of the first rejected element. |
| Tokenizers.CollectEntries | src/lib/BufferedTokenizer.js:15-23 | On success, there is one entry per distinct object, in `Map` order. Each holds that definition's pattern compiled with the tokenizer's flags. |
| Tokenizers.NewEntries | src/lib/BufferedTokenizer.js:6-13 | `undefined` throws the missing-argument error and a non-array throws the expected-array error, before any element is looked at. |
| Tokenizers.NewBufferedTokenizer | src/lib/BufferedTokenizer.js:6-26 | Construction succeeds exactly for an array of definitions. There is one entry per distinct definition object, in the `Map`'s insertion order: each object at its first position in the array. Each definition's regex gets its pattern and the flags `gmy`, plus `i` exactly when it ignores case. `subject` starts as `null`. |
| Tokenizers.NewRegExpTokenizerAsWritten | src/lib/BufferedRegExpTokenizer.js:6-24 | As written, only an empty array constructs. Any other array throws on its first element: `tokenDef.flags.ignoreCase` reads a property of `undefined`. |
| Tokenizers.NewRegExpTokenizer | src/lib/BufferedRegExpTokenizer.js:6-24 | The corrected constructor reads the definition's own `ignoreCase`. It succeeds exactly for an array of definitions whose patterns all compile in unicode mode. Otherwise it throws at the first element that is no definition (the expected-definition error) or whose pattern the engine refuses with the `u` flag (that `SyntaxError`, with the engine's message). On success there is one entry per distinct definition object, in the `Map`'s insertion order. Each regex gets its pattern and `gumy`, plus `i` exactly when the definition ignores case. |
| Tokenizers.RegExpTokenizerCounterexample | src/lib/BufferedRegExpTokenizer.js:21-22 | A one-definition array throws as written. Corrected, it compiles to one entry when the pattern compiles in unicode mode, and throws the unicode `SyntaxError` otherwise. |
| Tokenizers.FindTokensAt | src/lib/BufferedRegExpTokenizer.js:26-37 | The result holds exactly the `[identifier, end]` pairs of the entries whose sticky regex matches at the offset, a negative offset reading as 0. Every end lies between the offset and the end of the subject. The list is empty exactly when nothing matches there. |
| Tokenizers.FindTokensAtConcat | src/lib/BufferedRegExpTokenizer.js:29-35 | Pairs come out in entry order: the pairs for `a + b` are those for `a` followed by those for `b`. |
| Tokenizers.BufferedFindTokensAt | src/lib/BufferedTokenizer.js:28-39 | With a subject stored, the result is the candidate list for that subject at the offset, each end at or after the offset. |
| RegExps.Exec | lib/Scanner.js:264-265 | `exec` from `lastIndex` returns the leftmost offset at or after it where the regex matches, with that match's end. Every offset in between fails. A failed non-sticky search means no offset from `lastIndex` on matches. |
| RegExps.ExecSticky | src/lib/BufferedTokenizer.js:32-33 | With the sticky flag, `exec` and `test` succeed exactly when the regex matches at `lastIndex`. |
| TokenizerCaches.TokenizerForDialect | src/lib/TokenizerCache.js:7-14 | The creator runs exactly when the stored value is falsy. A truthy stored value is returned with the cache unchanged. A created result is stored and returned, even a falsy one. A creator that throws leaves the cache as it was. Other dialects' entries never change. |
| TokenizerCaches.SecondRequestIsCached | src/lib/TokenizerCache.js:7-14 | After a request that produced a tokenizer, the next request for that dialect returns the same tokenizer without calling the creator. |
| TokenizerCaches.FalsyIsRecreated | src/lib/TokenizerCache.js:8-12 | A falsy creator result is stored but does not count as cached: the next request runs the creator again. |
| TokenizerCaches.RequestsAreIndependent | src/lib/TokenizerCache.js:7-14 | Serving one dialect changes neither what a request for another returns nor whether it creates, and does not touch the first dialect's entry. |
| BufferedScanners.MaxBy | src/lib/BufferedScanner.js:22 | `maxBy` returns `undefined` exactly for an empty list. Otherwise it returns an element of the list whose key is at least every element's key. |
| BufferedScanners.Longest | src/lib/BufferedScanner.js:22 | The corrected selection returns no candidate exactly for an empty list. Otherwise it returns one of the candidates whose match length `end - position` is maximal. |
| BufferedScanners.LongestAsWritten | src/lib/BufferedScanner.js:22 | As written, the key `tok.value.length` throws on any non-empty candidate list, because a pair has no `value`. |
| BufferedScanners.LengthKeyCounterexample | src/lib/BufferedScanner.js:22 | One candidate makes the key as written throw, while the length key chooses that candidate. |
| BufferedScanners.BufferedLookupOk | src/lib/BufferedScanner.js:6-8 | The cache keeps holding only built, sticky tokenizers across a request, and a successful request returns one. |
| BufferedScanners.ServeBuffered | src/lib/BufferedScanner.js:18-22 | Corrected (see `LongestAsWritten`): the shared tokenizer object is stored back with the scanner's subject. The answer is no candidate exactly when it reports none, and otherwise a longest of its candidates. |
| BufferedScanners.BufferedNext | src/lib/BufferedScanner.js:15-23 | Corrected (see `LongestAsWritten`): at or past the end, it answers `null` without touching the cache. Before the end, the dialect's cached tokenizer holds the scanner's subject, and the answer is one of its longest candidates at `position`, or none exactly when it reports none. Other dialects' entries never change. |
| BufferedScanners.BufferedNextReuses | src/lib/BufferedScanner.js:15-23 | Corrected (see `LongestAsWritten`): once a dialect has a tokenizer, a request before the end reuses it with the new subject and does not throw. |
| BufferedScanners.UndefinedDefinitionsThrow | src/lib/BufferedScanner.js:6-8 | A dialect whose `tokenDefinitions` is `undefined` makes the first request before the end throw the missing-argument error, leaving the cache as it was. |
| BufferedScanners.RegExpLookupOk | src/lib/BufferedRegExpScanner.js:6-8 | The cache keeps holding only built, sticky entry lists, and a successful request returns one. |
| BufferedScanners.RegExpDetermine | src/lib/BufferedRegExpScanner.js:15-22 | At or past the end of the subject the answer is `[EOF]`. Otherwise it is a candidate with the greatest end among those the cached tokenizer reports, or none exactly when there are none. A cached tokenizer is reused without throwing, and other dialects' entries never change. |
| BufferedScanners.RegExpNextAsWritten | src/lib/BufferedRegExpScanner.js:15-22 | As written at line 21, the tokenizer is queried on the position's decimal digits at offset 0. The tokenizer itself comes from the corrected constructor: the one as written throws for any non-empty dialect before line 21 is reached. |
| BufferedScanners.RegExpNextAsWrittenIgnoresSubject | src/lib/BufferedRegExpScanner.js:21 | As written, two subjects that both extend past the position get the same answer. |
| BufferedScanners.RegExpNext | src/lib/BufferedRegExpScanner.js:15-22 | The corrected query, on the subject at `position`, answers `[EOF]` at or past the end. Otherwise it answers a candidate of greatest end, lying between `position` and the end of the subject, or none exactly when nothing matches. |
| BufferedScanners.EndKeyIsLengthKey | src/lib/BufferedRegExpScanner.js:21 | Since every candidate ends at or after `position`, keying on the end offset and keying on the match length allow the same winners. |
| GeneratorScanner.NewScanner | src/lib/Scanner.js:4-11 | For a string subject: `undefined`, `null` and the empty string are refused with a `TypeError`. Any other string is kept, with the position at 0. |
| GeneratorScanner.Next | src/lib/Scanner.js:13-27 | The argument checks run on the first pull, not at the call. A falsy or non-`Dialect` argument throws there and ends the stream. Each later pull asks for a token and ends the stream on a falsy answer, leaving the scanner as it was. Otherwise it yields the token and adds its value length to the position. The subject never changes and the position never decreases. |
| GeneratorScanner.PositionIsTotalLength | src/lib/Scanner.js:22-26 | After any number of pulls the position is the start plus the summed lengths of the tokens yielded, and the subject is unchanged. |
| GeneratorScanner.FinishedStaysFinished | src/lib/Scanner.js:13-27 | A finished generator yields nothing more and moves nothing. |
| GeneratorScanner.ZeroLengthRepeats | src/lib/Scanner.js:23-25 | There is no +1 guard, so a zero-length token is yielded on every pull and the position never moves. |
| GeneratorScanner.BadDialectThrowsOnFirstPull | src/lib/Scanner.js:13-20 | A bad dialect argument throws on the first pull, not before, and no token is ever yielded. |
| WholeChars.CharCodeAt | src/lib/wholeCharLength.js:5 | `charCodeAt` gives the unit at an index inside the string, and `NaN` (no unit) outside it. |
| WholeChars.WholeCharLength | src/lib/wholeCharLength.js:4-23 | The width is 1 or 2. It is 2 exactly when a high surrogate is followed by a low surrogate. A high surrogate in the last position gives 1, as does any non-high-surrogate unit. The character never runs past the end. |
| WholeChars.EncodedWidth | src/lib/wholeCharLength.js:9-19 | At the start of a UTF-16 encoded scalar value (section 2.1 of RFC 2781), the width is its encoded length and the decoded code point is the value. |
| WholeChars.CharactersFlatten | src/lib/wholeCharLength.js:4-23 | Stepping through a string by `wholeCharLength` neither skips nor repeats a unit. |
| WholeChars.CharactersOfEncoding | src/lib/wholeCharLength.js:4-23 | Stepping through an encoded text by `wholeCharLength` recovers each scalar value's encoding, in order. |

## Behaviour followed where code and documentation differ

The model follows the code wherever the library's documented behaviour says otherwise:
- **Chunked and one-shot indexing.** The documentation says they agree for every split. In the code they are proved to agree when no chunk boundary falls between a CR and its LF and the text holds no LINE SEPARATOR or PARAGRAPH SEPARATOR. `LineIndex.ChunkedAgrees` carries both conditions. The conditions are sufficient, not necessary: a single chunk always agrees, whatever it holds (`LineIndex.SingleChunkAgrees`). The two counterexample lemmas show that dropping either condition can break agreement.
- **`Dialect` (src/lib/Dialect.js).** It neither refuses an empty list nor removes duplicates, and `getDescriptor` returns the last descriptor of a type.
- **`TokenDefinition`.** It only checks the type of `ignoreCase`. Other flag entries are ignored, not refused.
- **The `Scanner` constructor.** It refuses the empty string, because the string is falsy.
- **Running out of candidates.** The stream ends silently when no definition matches. There is no sentinel token and no error.
- **The legacy scanner's winner.** It is the first descriptor that matches at the cursor, not the longest match.

## Findings

| source | as written | input that shows it | evidently intended | confidence | as-written member | corrected member |
|---|---|---|---|---|---|---|
| lib/Scanner.js:289-295 | After a match containing a break, the column becomes 1 plus the length of the text after the FIRST break, up to the next line terminator. | The match "\n \n  " from column 1 gives column 2. The next unit is on column 3, and the line count (which counts both breaks) agrees with 3. | Column 1 plus the number of units after the LAST break. | not executed | LegacyScanner.ColumnAfterAsWritten, LegacyScanner.ColumnAfterAsWrittenCounterexample | LegacyScanner.ColumnAfter, LegacyScanner.ColumnAfterConcat, LegacyScanner.Tokenize |
| src/lib/BufferedRegExpTokenizer.js:21 | The flags are read as `tokenDef.flags.ignoreCase`. A `TokenDefinition` has no `flags` property, so this throws a `TypeError`. | Any array holding one `TokenDefinition`. | Read `tokenDef.ignoreCase`, as `BufferedTokenizer` does at line 21 of its file. | not executed | Tokenizers.NewRegExpTokenizerAsWritten, Tokenizers.RegExpTokenizerCounterexample | Tokenizers.NewRegExpTokenizer |
| src/lib/BufferedScanner.js:22 | The candidates are keyed on `tok.value.length`. A candidate is an `[identifier, lastIndex]` pair with no `value`, so `maxBy` throws on the first candidate. | A subject and a dialect for which one definition matches at the position. | Key on the match length, `tok[1] - position`. | not executed | BufferedScanners.LongestAsWritten, BufferedScanners.LengthKeyCounterexample | BufferedScanners.Longest, BufferedScanners.BufferedNext, BufferedScanners.ServeBuffered, BufferedScanners.BufferedNextReuses |
| src/lib/BufferedRegExpScanner.js:21 | `findTokensAt(this.position)` passes the position as the subject and leaves the offset `undefined`. The regexes therefore run at offset 0 of the position's decimal digits. | Two different subjects longer than the position get the same answer. | `findTokensAt(this.subject, this.position)`. | not executed | BufferedScanners.RegExpNextAsWritten, BufferedScanners.RegExpNextAsWrittenIgnoresSubject | BufferedScanners.RegExpNext |

## Left out

- The JavaScript regular-expression engine: pattern syntax, flags semantics and case folding are the `Matcher` parameter, and "pattern compiles" is the `SyntaxCheck` parameter of `TokenDefinitions.NewDefinition`. Only the fixed line-break regexes are written out.
- `node-interval-tree`: replaced by a list of intervals searched in order (`LineIndex.Find`). Its balancing and its search cost are not modelled.
- `lodash.isstring`: a pattern is either a string value or some other value (`TokenDefinitions.Value`).
- BufferedScanners.MaxBy: no tie-break is stated. Which of several equally long candidates `lodash.maxby` returns is library code outside the repository.
- The `WeakMap`'s garbage collection and JavaScript object identity: dialects and definition objects are opaque keys.
- `Object.keys` enumeration order: the legacy constructor takes its dialect descriptions as an ordered list of pairs, and the registry is a map.
- `identifier.toString()` for values that are neither strings nor symbols. For a symbol the rendering is `Symbol(description)`.
- Tokens.ToStringLayout: it states the value part and the one-line property of `toString`, not a worked example. The exact field text is the function `Tokens.Fields`.
- `Token`'s `line` and `column` getters call `scanner.lineNumberForOffset` and `scanner.columnNumberForOffset`, which src/lib/Scanner.js does not define. Their answers are functions carried by `Tokens.Owner`.
- End-to-end composition of the `src/lib` pieces. `BufferedScanner` reads `dialect.tokenDefinitions`, which src/lib/Dialect.js lacks. It is a parameter (`definitionsOf`), and `BufferedScanners.UndefinedDefinitionsThrow` shows what the missing property does. The truthy `[EOF]` answer, which the generator would then read `.value` of, is a separate `EndOfInput` answer.
- GeneratorScanner.Next: the length of a yielded token's `value` is a parameter `len`, since what the subclass returns is not fixed by src/lib/Scanner.js.
- The plain getters: `Dialect`'s `name()` and `descriptors()` and `Token`'s `start`, `end`, `scanner` and `definition` are the fields of the `Dialects.Dialect` and `Tokens.Token` datatypes, so they hand back what was stored.
- The legacy scanner's worked examples in test/ScannerTest.js (column numbers, the error at index 14, line 3, column 5) are not restated. They depend on concrete `\w+`, `\s+` and `\.` regexes, and the regex engine is a parameter.
- Names inherited from `Object.prototype` are not modelled. The code keeps its registries in plain objects (`this._dialects`, the `typesSeen` object of `createDialect` and the descriptor hash), so a name such as `constructor` or `toString` already counts as present there. The model's maps start empty. The members below therefore promise the ordinary-name behaviour for such names too:
- LegacyScanner.New: `new Scanner({constructor: [...]})` throws the already-exists error in the code (lib/Scanner.js:120), while the model succeeds.
- LegacyScanner.NewByName: the same inherited-name gap as `New`.
- LegacyScanner.AddAll: the same inherited-name gap, through `addDialect`.
- LegacyScanner.AddDialect: an inherited name such as `toString` throws the already-exists error in the code (lib/Scanner.js:120), while the model registers it.
- LegacyScanner.CollectDescriptors: a descriptor type such as `constructor` throws the duplicate-type error on first sight in the code (lib/Scanner.js:203), while the model accepts it.
- LegacyScanner.CreateDialect: the same inherited-type gap, through `CollectDescriptors`.
- LegacyScanner.SetDialect: `setDialect("toString")` selects an inherited function in the code (lib/Scanner.js:141), while the model throws the no-such-dialect error.
- LegacyScanner.PushDialect: the same inherited-name gap, through `setDialect`.
- LegacyScanner.Resolve: an expected name such as `toString` resolves to an inherited function in the code (lib/Scanner.js:442), while the model reports it as unknown.
- Dialects.GetDescriptor: `getDescriptor("toString")` returns an inherited function in the code (src/lib/Dialect.js:62), while the model returns none.
- Dialects.HashAgreesWithScan: the agreement is stated for the model's hash. The code's hash also "finds" inherited names, which a scan of the list does not.
- GeneratorScanner.NewScanner: only string subjects are modelled. The code keeps any truthy value, and also refuses `0`, `false` and `NaN`.
- LegacyScanner.Tokenize: the tokens are shown to spell the source exactly only when no match is empty. An empty match skips one unit that no token holds.
- The IE `lastIndex` workaround (lib/Scanner.js:304-306): the new cursor is the match end, plus one after an empty match, as a conforming engine gives.
- `setSource` with a non-string argument (`sourceStr + ""` stringifies it): the source is a text.
- Offsets that are not integers. Offsets are `int` (queries, `slice`) or `nat` (cursors).
- src/lib/createDialect.js, src/lib/assert.js, src/index.js and bench.js are not part of this model. They are glue, a throw helper, re-exports and a timing script.
- `ScannerError`'s message text: an error is its kind plus the snapshot of source, index, line and column.
