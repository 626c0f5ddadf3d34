# parse-torrent-title: the parser core in Dafny

This project models the core of `src/parser.js` of parse-torrent-title. The
library reads a torrent or release name such as `The.Movie.2019.1080p.BluRay.x264`
and turns it into a result object: `{ title, year, resolution, ... }`.

The parser is a class `Parser` holding an ordered list of handlers.

- `addHandler` (lines 141-168) registers a handler. The handler is one of:
  - a regular expression, with a field name, an optional transformer and an
    option set that `extendOptions` (lines 31-55) completes with defaults. It is
    wrapped by `createHandlerFromRegExp` (lines 57-92).
  - a function, named or unnamed.

  Any other handler is rejected with an error.
- `parse` (lines 170-194) collapses runs of underscores into one space. It then
  passes the working title through every handler in order. A handler may:
  - record a field in `result`;
  - cut its match out of the working title (`remove`);
  - move `endOfTitle`, the boundary of the title candidate, to the left.

  At the end the candidate `title.slice(0, endOfTitle)` is cleaned by
  `cleanTitle` (lines 94-132) and stored as `result.title`.
- `cleanTitle` is a fixed cascade of string rewrites:
  - the dot rule;
  - underscores to spaces;
  - `[(movie)]` markers;
  - symbols at the edges;
  - cast credits, tags, alternative titles and text in another script;
  - the first empty bracket pair;
  - brackets whose kind is unbalanced (the `BRACKETS` table, lines 17-20);
  - trailing separators;
  - `trim`.

Modules, one per concern of the source:

- `Wrappers`: `Option`.
- `JsString`: the JavaScript string operations the source relies on, with
  their JavaScript semantics:
  - `slice` with negative and out-of-range indices;
  - `trim` over JavaScript's whitespace set;
  - a non-global `replace` of a character-class run;
  - `includes`.

  It also defines the subsequence relation used to state that a rewrite only
  deletes.
- `JsValue`: the values the result object holds, JavaScript truthiness and `||`.
- `HandlerOptions`: the option set, its defaults, and `extendOptions`. That
  function fills in the caller's object in place, so the object is a class
  `OptionsObject` and `ExtendOptions` is a module-level method that takes an
  `OptionsObject?` and updates it.
- `RegexAdapter`: the regex handler. `RegexReply` states what one call
  decides and how it rewrites `result` and `matched`. `MatchContext` holds the
  two maps, and its method `ApplyRegexHandler` updates them in place.
- `TitleCleaner`: `cleanTitle`, as four stages:
  - `NormalizeSeparators` (lines 103-108);
  - `StripDecorations` (lines 109-115);
  - `TidyBrackets` (lines 116-123);
  - `FinishTitle` (lines 125-130).
- `TitleParser`: the class `Parser` with `AddHandler` and `Parse`. `Parse` has
  the source's loop and is proved against the recursive specification `Run`
  over the handler list.

Regular expressions:

- The regexes the cleaner uses that are plain character classes or literals
  are modelled exactly. This covers lines 25-28, 103-108 and 129-130, and the
  missing `g` flag: `^A+|B+$` removes the leading run when there is one, and
  only otherwise the trailing run. `EMPTY_BRACKETS_REGEX` removes only the
  first empty pair.
- Five patterns are abstract. Those at lines 22-24 combine lookbehind
  (lines 22 and 24), lookahead (line 24) and the eleven-range class
  `NON_ENGLISH_CHARS` (lines 23 and 24) with unbounded repetition. The literals at lines 111-112 need
  backtracking over `.*` to place their capture group. A `Scrubbers` value gives
  the position of their first match (or of the kept group), and what the
  replacement then does is modelled exactly.
- The regex of a handler is abstract in the same way. It is a function from
  the working title to its first match.

`cleanTitle` is not idempotent: `"a.b ."` cleans to `"a.b"`, which cleans to
`"a b"` (`TitleCleaner.CleanTitleNotIdempotent`).

## Model

| member | source | states |
|---|---|---|
| JsValue.Truthy | src/parser.js:59-74 | JavaScript's ToBoolean, used for `result[name]`, `transformed`, `options.value` and `\|\|`. The definition is the model: `undefined`, `null`, `false`, `0` and `""` are falsy, and everything else is truthy. Its properties are stated by the `Get` and `Or` rows. |
| JsValue.Get | src/parser.js:59 | A missing key reads as `undefined`, which is falsy; a present key reads as its value. |
| JsValue.Or | src/parser.js:75-76 | `a \|\| b` is truthy iff either operand is; it is `a` when `a` is truthy, and `b` when `a` is falsy. |
| HandlerOptions.WithDefaults | src/parser.js:31-55 | Every flag ends up defined. A flag the caller gave is kept. An undefined flag takes its default: `skipIfAlreadyFound` true, the others false. `value` is untouched. |
| HandlerOptions.WithDefaultsIdempotent | src/parser.js:41-52 | Completing an already completed option set changes nothing, and a set with every flag defined is its own completion. |
| HandlerOptions.OptionsObject.constructor | src/parser.js:32 | A fresh object holds exactly the given option set. |
| HandlerOptions.ExtendOptions | src/parser.js:31-55 | A given object is filled in place and returned. A missing one is replaced by a fresh `{}`. Either way it ends up as the completion of what it held. |
| JsString.ReplaceChar | src/parser.js:104 | `replace(/x/g, y)`: same length; every occurrence of `x` becomes `y`; everything else stays in place. |
| JsString.ReplaceCharCount | src/parser.js:107 | Replacing one character by another leaves the count of every third character unchanged. |
| JsString.RemoveChars | src/parser.js:121 | `split(a).join("").split(b).join("")`: neither character remains; every other character keeps its count; the result is a subsequence. |
| JsString.ContainsIff | src/parser.js:69 | `includes` holds iff the substring occurs at some offset. |
| JsString.Count | src/parser.js:120 | `(s.match(/x/g) \|\| []).length` for a one-character pattern. The definition is the model: the number of positions holding `x`. `CountAppend` and `CountPositive` state its properties. |
| JsString.CountPositive | src/parser.js:120 | A character occurs in a string iff its count there is positive. |
| JsString.SubsequenceTransitive | src/parser.js:101-131 | Deletions compose: a subsequence of a subsequence is a subsequence. |
| JsString.SubsequenceCount | src/parser.js:101-131 | A deletion never raises a character's count and never introduces a character. |
| JsString.SubsequenceSplice | src/parser.js:179 | Cutting a block out of a string leaves a subsequence of it. |
| JsString.SubsequenceSlice | src/parser.js:191 | Every contiguous block of a string is a subsequence of it. |
| JsString.PrefixRun | src/parser.js:25 | An anchored `^[class]*` matches a maximal prefix: every character in it is in the class, and the next one is not. |
| JsString.SuffixRunStart | src/parser.js:27 | A `[class]+$` match begins where the maximal suffix of class characters begins. |
| JsString.DropLeadingRun | src/parser.js:25-26 | `replace(/^[class]+/, "")` removes exactly the leading run. What remains is a suffix that does not start with a class character. The string is unchanged when it does not start with one. |
| JsString.DropTrailingRun | src/parser.js:27 | `replace(/[class]+$/, "")` removes exactly the trailing run. What remains is a prefix that does not end with a class character. The string is unchanged when it does not end with one. |
| JsString.Trim | src/parser.js:130 | `trim()` cuts out exactly the leading whitespace run and a trailing whitespace run: the result is the block of `s` that starts right after the leading run, everything after it is whitespace, and it neither starts nor ends with whitespace. Every non-whitespace character keeps its count. |
| JsString.TrimKeepsUnpadded | src/parser.js:130 | A string without whitespace at either end is its own trim. |
| JsString.JsSlice | src/parser.js:179-191 | `s.slice(start, end)`. The definition is the model: a negative index counts from the end, indices are clamped to the string, and the result is empty when the clamped start is not before the clamped end. `SliceInRange` and `SlicePrefix` state its properties. |
| JsString.SliceInRange | src/parser.js:179 | With in-range indices `slice(a, b)` is the block `[a, b)`. |
| JsString.SlicePrefix | src/parser.js:191 | `slice(0, e)` is always a prefix. For a negative `e` it is the prefix of length `length + e`, or empty when that is negative. For `e` at or past the length it is the whole string. |
| JsString.PrefixRunAppend | src/parser.js:171 | Appending text that does not continue a leading run leaves the run's length unchanged. |
| RegexAdapter.TransformInput | src/parser.js:64-67 | The transformer receives capture group 1 when it is non-empty, and the whole match otherwise. |
| RegexAdapter.LeadingBracketContent | src/parser.js:68 | It yields content of length `n` iff the title starts with `[`, `n > 0` characters other than square brackets, then `]`. The content is exactly those characters. |
| RegexAdapter.IsBeforeTitle | src/parser.js:68-69 | `isBeforeTitle`. The definition is the model: the title opens with a bracketed block (`LeadingBracketContent`) whose content `includes` the raw match. `BeforeTitleIgnoresPosition` shows that the match's position plays no part. |
| RegexAdapter.IsSkipIfFirst | src/parser.js:70-72 | `isSkipIfFirst`. The definition is the model: the option is set, some other field is matched, and the match lies before every other recorded match. `SkipIfFirstPassesOnlyWhenNotFirst` states its consequence on success. |
| RegexAdapter.RegexReply | src/parser.js:57-87 | The handler returns an outcome iff four things hold: the field is not already found under `skipIfAlreadyFound`; the match is non-empty; the transformer's result is truthy; the skip-if-first rule does not apply. `null` leaves both maps alone. An outcome carries the raw match, its offset, `remove`, and `skipFromTitle` or `isBeforeTitle`. On success the field holds `options.value \|\| transformed` and no other field changes. The registry gains the name, keeping a first-recorded entry. |
| RegexAdapter.FoundFieldIsNotOverwritten | src/parser.js:59-61 | After one handler has found a field, a second handler for the same field with `skipIfAlreadyFound` returns `null` and changes nothing. |
| RegexAdapter.RegistryFollowsResults | src/parser.js:75-76 | When every matched name has a result entry before a call, the same holds after it. |
| RegexAdapter.SkipIfFirstPassesOnlyWhenNotFirst | src/parser.js:71-74 | A `skipIfFirst` handler succeeds only when no other field was matched, or some other field was matched at or before its offset. |
| RegexAdapter.BeforeTitleIgnoresPosition | src/parser.js:68-69 | `isBeforeTitle` holds for a match found after the leading bracket whose text occurs inside it: `"[ab] ab"` matched at offset 5. |
| RegexAdapter.MatchContext.constructor | src/parser.js:172-173 | `result` and `matched` start empty. |
| RegexAdapter.MatchContext.ApplyRegexHandler | src/parser.js:57-87 | The call leaves `result` and `matched` as `RegexReply` prescribes and returns its outcome. |
| TitleCleaner.DotsToSpaces | src/parser.js:103-105 | Without a space and with a dot, every dot becomes a space, so no dot remains and a space appears. Otherwise the string is unchanged. Characters other than dots stay in place. |
| TitleCleaner.DotsToSpacesCount | src/parser.js:103-105 | The dot rule keeps the count of every character other than dot and space. |
| TitleCleaner.RemoveMovieMarkers | src/parser.js:108 | Removing `[(movie)]` markers, caseless, only deletes characters. |
| TitleCleaner.NoMovieMarkerUnchanged | src/parser.js:108 | A string with no marker at any offset is unchanged. |
| TitleCleaner.ShortStringKeepsNoMarker | src/parser.js:108 | A string shorter than a marker is unchanged. |
| TitleCleaner.StripSymbolsAtEdges | src/parser.js:25 | If the string starts with a disallowed character, only the leading run of them goes, and the rest starts with an allowed one. Otherwise only the trailing run of end symbols goes, and the rest does not end in one. |
| TitleCleaner.StripLeftoverSymbols | src/parser.js:26 | If the string starts with a disallowed character, only the leading run goes. Otherwise exactly one trailing `]` goes, if there is one. |
| TitleCleaner.StripRedundantAtEnd | src/parser.js:27 | The trailing run of ` -:./\` goes: the result is a prefix not ending in one of them, and other characters keep their counts. |
| TitleCleaner.EmptyPairLength | src/parser.js:28 | The length of an empty bracket pair at the start of the string: 0 when there is none, otherwise between 2 and the string's length. `EmptyPairLengthMeaning` proves that it is exactly the length of the pair. |
| TitleCleaner.EmptyPairLengthMeaning | src/parser.js:28 | The measured length is positive and equals `m` iff the string starts with an opener, `m - 2` whitespace characters and the matching closer. |
| TitleCleaner.FindEmptyPair | src/parser.js:28 | The search returns the leftmost offset from `from` at which an empty pair starts, or `None` when there is none. |
| TitleCleaner.RemoveFirstEmptyPair | src/parser.js:116 | Removing the first empty pair only deletes characters. |
| TitleCleaner.NoEmptyPairUnchanged | src/parser.js:116 | Without an empty pair the string is unchanged. |
| TitleCleaner.FirstEmptyPairRemoved | src/parser.js:116 | With the leftmost empty pair at `p`, exactly that pair is cut out. |
| TitleCleaner.OnlyFirstEmptyPairRemoved | src/parser.js:28 | Without the `g` flag only one pair goes: `"()()"` becomes `"()"`. |
| TitleCleaner.BalanceKind | src/parser.js:120-121 | For one bracket kind: a balanced string is unchanged, and an unbalanced one loses every bracket of that kind. The result is balanced for that kind, other characters keep their counts, and the result is a subsequence. |
| TitleCleaner.BalanceBrackets | src/parser.js:119-123 | The loop over the kinds keeps every non-bracket character's count and only deletes. |
| TitleCleaner.BalanceBracketsBalanced | src/parser.js:17-20 | With distinct kinds, every kind is balanced after the loop. A later kind's pass does not unbalance an earlier one. |
| TitleCleaner.DeleteSpan | src/parser.js:110 | A non-global `replace(regex, "")` cuts out the first match and nothing else. |
| TitleCleaner.DropPrefix | src/parser.js:111 | Replacing with `"$1"` keeps the text from group 1 on. |
| TitleCleaner.DropSuffix | src/parser.js:112 | Replacing with `"$1"` keeps the text up to the end of group 1. |
| TitleCleaner.NormalizeSeparators | src/parser.js:103-108 | After the first three rewrites no underscore remains. |
| TitleCleaner.StripDecorations | src/parser.js:109-115 | The seven decoration rewrites only delete characters. |
| TitleCleaner.TidyBrackets | src/parser.js:116-123 | After the bracket rewrites every bracket kind is balanced, and the rewrites only deleted characters. |
| TitleCleaner.FinishKeepsCount | src/parser.js:125-130 | The last three rewrites keep the count of every character that is not a dot, a trailing separator or whitespace. |
| TitleCleaner.FinishKeepsKindBalanced | src/parser.js:125-130 | The last three rewrites keep each bracket kind balanced. |
| TitleCleaner.FinishKeepsBalance | src/parser.js:125-130 | The last three rewrites keep all three kinds balanced. |
| TitleCleaner.FinishKeepsNoUnderscore | src/parser.js:125-130 | The last three rewrites introduce no underscore. |
| TitleCleaner.FinishTitle | src/parser.js:125-130 | The result has no whitespace at either end, introduces no underscore, and keeps brackets balanced. |
| TitleCleaner.CleanTitle | src/parser.js:94-132 | `cleanTitle`. The definition is the model: the four stages in source order. Its properties are stated by `CleanTitleGuarantees`, the per-stage contracts, and the worked examples down to `CleanTitleNotIdempotent`. |
| TitleCleaner.CleanTitleGuarantees | src/parser.js:94-132 | For every raw title and every behaviour of the abstract patterns, the clean title has no whitespace at either end, no underscore, and every bracket kind balanced. |
| TitleCleaner.NormalizeKeepsPlainText | src/parser.js:103-108 | A short string without underscores that the dot rule leaves alone passes the first three rewrites unchanged. |
| TitleCleaner.DecorationsKeepPlainText | src/parser.js:109-115 | When no abstract pattern matches, a string that starts with a word character and ends in neither an end symbol nor `]` passes lines 109-115 unchanged. |
| TitleCleaner.BracketsKeepPlainText | src/parser.js:116-123 | A string without brackets passes the bracket rewrites unchanged. |
| TitleCleaner.FinishSpacedDottedPair | src/parser.js:125-130 | `"x.y ."` finishes as `"x.y"`: a space is present, so the dot rule does not fire, and the trailing `" ."` goes. |
| TitleCleaner.PlainTextReachesFinish | src/parser.js:94-132 | For such plain text the whole cascade reduces to its last stage. |
| TitleCleaner.CleanSpacedDottedPair | src/parser.js:94-132 | `cleanTitle("x.y .")` is `"x.y"`. |
| TitleCleaner.NormalizeDottedPair | src/parser.js:103-105 | `"x.y"` has no space, so its dot becomes a space. |
| TitleCleaner.FinishSpacedPair | src/parser.js:125-130 | `"x y"` finishes unchanged. |
| TitleCleaner.CleanDottedPair | src/parser.js:94-132 | `cleanTitle("x.y")` is `"x y"`. |
| TitleCleaner.CleanTitleNotIdempotent | src/parser.js:94-132 | Cleaning `"a.b ."` twice differs from cleaning it once. |
| TitleParser.CollapseUnderscores | src/parser.js:171 | `replace(/_+/g, " ")`: no underscore remains; the string never grows; a string without underscores is unchanged; every character other than underscore and space keeps its count. |
| TitleParser.CollapseRun | src/parser.js:171 | A run of one or more underscores becomes exactly one space. |
| TitleParser.CollapseAppend | src/parser.js:171 | The rewrite distributes over a concatenation whose seam does not split a run of underscores. With `CollapseRun` and the identity on underscore-free text this determines the result: each maximal run becomes one space and nothing else changes. |
| TitleParser.ShapeOf | src/parser.js:142-165 | The branch taken, each characterised by an if-and-only-if over the argument classes, in the source's order of tests. |
| TitleParser.Registered | src/parser.js:141-167 | A lone function is registered under the name `"unknown"`, and a named function under its name. A regex handler gets its name, its regex, the completed options, and the transformer when it is a function (`none` otherwise). |
| TitleParser.Parser.constructor | src/parser.js:137-139 | A new parser has no handlers. |
| TitleParser.Parser.AddHandler | src/parser.js:141-168 | The call fails iff neither a RegExp nor a function was given, and then the handler list is unchanged. Otherwise exactly the registered handler is appended. Only the RegExp branch completes the caller's options object in place. |
| TitleParser.Start | src/parser.js:171-174 | The loop starts on the underscore-collapsed title, with the boundary at its length and both maps empty. |
| TitleParser.HandlerReply | src/parser.js:177 | The call `handler({ title, result, matched })`. The definition is the model: a regex handler answers as `RegexReply` on its regex's first match, and a custom handler as its function. |
| TitleParser.Splice | src/parser.js:179 | The two `slice` calls of line 179. The definition is the model. `SpliceRemovesMatch`, `SpliceKeepsOrder` and `SpliceAtNegativeOffset` state its properties. |
| TitleParser.SpliceRemovesMatch | src/parser.js:179 | For a match that really lies in the title, the two slices cut out exactly the match. |
| TitleParser.SpliceKeepsOrder | src/parser.js:179 | For a non-negative offset the new working title is a subsequence of the old one. |
| TitleParser.SpliceAtNegativeOffset | src/parser.js:179 | With a negative offset the slices count from the end and duplicate text: `"abcdef"` at -2 with a 3-character match gives `"abcdbcdef"`. |
| TitleParser.NextEnd | src/parser.js:181-188 | The boundary never moves right, and `null` leaves it alone. An offset of 0 is falsy and never becomes the boundary. At most one of the two rules applies. Each rule's effect is stated. |
| TitleParser.BoundaryCanGoNegative | src/parser.js:184-191 | A removed, skipped 10-character match at offset 0 drives a boundary of 5 to -5. `slice(0, -5)` then drops the last five characters. |
| TitleParser.Step | src/parser.js:177-188 | One iteration: the maps become the handler's, the boundary follows `NextEnd`, and the title is spliced iff the outcome asks to remove. |
| TitleParser.Run | src/parser.js:176-189 | The `for` loop over the handlers, in registration order. The definition is the model: `Step` applied to each handler in turn. `RunNeverRaisesBoundary` and `RunKeepsOrder` state its properties, and `Parser.Parse` is proved to compute it. |
| TitleParser.RunNeverRaisesBoundary | src/parser.js:176-189 | Over any handler list the boundary only decreases. |
| TitleParser.RunKeepsOrder | src/parser.js:176-189 | When every handler reports non-negative offsets, the final working title is a subsequence of the initial one. |
| TitleParser.TitleCandidate | src/parser.js:191 | The candidate is a prefix of the working title: exactly the first `endOfTitle` characters when the boundary is in range, the whole title when the boundary is at or past its end, and the title minus its last `-endOfTitle` characters (or nothing) when the boundary is negative. |
| TitleParser.StoreTitle | src/parser.js:191 | `result.title` is set to the cleaned candidate, and every other field keeps its value. |
| TitleParser.ParseResult | src/parser.js:170-194 | `parse(title)` as a function of the handler list. The definition is the model: `Start`, then `Run`, then `StoreTitle`. `ParsedTitleIsClean` and `NoHandlersCleanWholeInput` state its properties, and `Parser.Parse` is proved to return it. |
| TitleParser.ParsedTitleIsClean | src/parser.js:170-194 | Whatever the handlers do, the parsed title is a string with no whitespace at either end, no underscore, and balanced brackets. |
| TitleParser.NoHandlersCleanWholeInput | src/parser.js:170-194 | With no handlers the result holds only `title`: the cleaned, underscore-collapsed input. |
| TitleParser.CallHandler | src/parser.js:177 | A regex handler or a custom function leaves the maps and returns the outcome its reply prescribes. |
| TitleParser.RunHandler | src/parser.js:177-188 | One loop body leaves title, boundary and maps exactly as `Step` prescribes. |
| TitleParser.Parser.Parse | src/parser.js:170-194 | The loop computes `Run` over the registered handlers in order, and the result is the final maps with the cleaned title stored. |

## Left out

- The regex engine is not modelled. A handler's regex is a function from the working title to its first match.
- Five cleaner patterns (lines 22-24, 111, 112) are abstract (`Scrubbers`). Those at lines 22-24 combine lookbehind (lines 22, 24), lookahead (line 24) and the `NON_ENGLISH_CHARS` class (lines 23, 24) with unbounded repetition. Those at lines 111-112 place their capture group by backtracking over `.*`. The theorems about `cleanTitle` hold for every behaviour of these patterns.
- The literal at line 111, `^\[[【★]`, needs `[` followed by `【` or `★`. A class `[\[【★]` was probably intended. The pattern is abstract, so the model neither exhibits nor corrects this.
- The transformers, including `none` from `./transformers`, are opaque functions. `none` is a parameter of the `Parser` constructor. The transformer module is not part of this model.
- Custom function handlers are opaque functions of the working title and both maps.
- The `handlerName` property that `addHandler` writes on a function is kept on the registered handler. Aliasing is not modelled: the same function object registered twice under different names is not overwritten.
- The message text of the thrown `Error` is not modelled; only the fact of the error is.
- TitleParser.Parser.AddHandler: an options object is read at the moment of registration. Changes the caller makes to it afterwards do not reach the handler, whereas in the source the handler shares the object.
- An options argument that is truthy but not an object (a number, a string) is not modelled: the options argument is an object or `null`.
- An options object passed in the transformer position is dropped. The test at line 152 runs after line 151 has already replaced a non-function transformer by `none`. The model takes `options` from the fourth argument only, which is what the code does.
- Numbers in the result are integers. Floating point, `NaN` and other JavaScript values a transformer may return are not modelled.
- Strings are sequences of Unicode code points. The `u` flag and UTF-16 surrogate pairs in `length` and `slice` offsets are not distinguished.
- TitleParser.RunKeepsOrder: "the final title keeps the order of the input" needs non-negative offsets. A custom handler may report any offset, and `SpliceAtNegativeOffset` shows that a negative one duplicates text.
- TitleCleaner.RemoveMovieMarkers: only "deletes characters" is stated. A marker formed by the removal of another is not rescanned, and no lemma exhibits this.
- Idempotence of `cleanTitle` is not stated, because the code does not have it (`CleanTitleNotIdempotent`).
