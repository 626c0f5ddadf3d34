/** `cleanTitle` (src/parser.js:94-132): the fixed cascade of rewrites that
    turns the title candidate into the presented title. Every rewrite whose
    regex is a plain character class or literal is modelled exactly, including
    the missing `g` flag of the patterns at lines 25-26 and 28 (only the first
    match is removed). Five patterns are abstract: those at lines 22-24, which combine
    lookbehind, lookahead and the `NON_ENGLISH_CHARS` class with unbounded
    repetition, and the literals at lines 111-112, which place their capture
    group by backtracking over `.*`.
    A `Scrubbers` value tells where their first match lies, and the removal
    is then modelled exactly. */
module TitleCleaner {
  import opened Wrappers
  import opened JsString

  /** NON_ENGLISH_CHARS (src/parser.js:3-15): Japanese, Chinese, CJK
      compatibility, halfwidth Katakana, Cyrillic, Arabic, Kannada, Malayalam, Thai. */
  predicate IsNonEnglish(c: char) {
    ('\U{3040}' <= c <= '\U{30FF}') || ('\U{3400}' <= c <= '\U{4DBF}') || ('\U{4E00}' <= c <= '\U{9FFF}')
    || ('\U{F900}' <= c <= '\U{FAFF}') || ('\U{FF66}' <= c <= '\U{FF9F}') || ('\U{400}' <= c <= '\U{4FF}')
    || ('\U{600}' <= c <= '\U{6FF}') || ('\U{750}' <= c <= '\U{77F}') || ('\U{C80}' <= c <= '\U{CFF}')
    || ('\U{D00}' <= c <= '\U{D7F}') || ('\U{E00}' <= c <= '\U{E7F}')
  }

  /** `\w` of a regex with the `u` flag and without `i`. */
  predicate IsWordChar(c: char) {
    ('a' <= c <= 'z') || ('A' <= c <= 'Z') || ('0' <= c <= '9') || c == '_'
  }

  /** ---------- the dot rule (lines 103-105 and 125-127) ---------- */

  /** Periods become spaces, but only in a string that has no space and has a period. */
  function DotsToSpaces(s: string): (r: string)
    ensures |r| == |s|
    ensures ' ' !in s && '.' in s ==> '.' !in r && ' ' in r
    ensures ' ' !in s && '.' in s ==> forall i :: 0 <= i < |s| && s[i] == '.' ==> r[i] == ' '
    ensures !(' ' !in s && '.' in s) ==> r == s
    ensures forall i :: 0 <= i < |s| && s[i] != '.' ==> r[i] == s[i]
  {
    if ' ' !in s && '.' in s then ReplaceChar(s, '.', ' ') else s
  }

  lemma DotsToSpacesCount(s: string, c: char)
    requires c != '.' && c != ' '
    ensures Count(DotsToSpaces(s), c) == Count(s, c)
  {
    if ' ' !in s && '.' in s {
      ReplaceCharCount(s, '.', ' ', c);
    }
  }

  /** ---------- `[(movie)]`, any case (line 108, flags `g` and `i`) ---------- */

  const MovieMarker := "[(movie)]"

  /** Case folding of the `i` flag without `u`: only ASCII letters fold onto
      the letters of the marker. */
  function LowerAscii(c: char): char {
    if 'A' <= c <= 'Z' then (c as int + 32) as char else c
  }

  predicate CaselessPrefix(s: string, p: string) {
    |p| <= |s| && forall i :: 0 <= i < |p| ==> LowerAscii(s[i]) == LowerAscii(p[i])
  }

  /** Left-to-right scan removing every marker; text freed up by a removal is
      not scanned again. */
  function RemoveMovieMarkers(s: string): (r: string)
    ensures IsSubsequence(r, s)
    decreases |s|
  {
    if CaselessPrefix(s, MovieMarker) then
      var t := RemoveMovieMarkers(s[|MovieMarker|..]);
      SubsequenceSlice(s, |MovieMarker|, |s|);
      assert s[|MovieMarker|..|s|] == s[|MovieMarker|..];
      SubsequenceTransitive(t, s[|MovieMarker|..], s);
      t
    else if s == [] then []
    else [s[0]] + RemoveMovieMarkers(s[1..])
  }

  /** No offset of `s` starts a marker. */
  ghost predicate NoMovieMarker(s: string) {
    forall i :: 0 <= i <= |s| ==> !CaselessPrefix(s[i..], MovieMarker)
  }

  lemma {:induction false} NoMovieMarkerUnchanged(s: string)
    requires NoMovieMarker(s)
    ensures RemoveMovieMarkers(s) == s
  {
    assert !CaselessPrefix(s[0..], MovieMarker);
    if s != [] {
      forall i | 0 <= i <= |s[1..]| ensures !CaselessPrefix(s[1..][i..], MovieMarker) {
        assert s[1..][i..] == s[i + 1..];
      }
      NoMovieMarkerUnchanged(s[1..]);
    }
  }

  /** A string shorter than the marker cannot contain one. */
  lemma {:induction false} ShortStringKeepsNoMarker(s: string)
    requires |s| < |MovieMarker|
    ensures RemoveMovieMarkers(s) == s
  {
    if s != [] {
      ShortStringKeepsNoMarker(s[1..]);
    }
  }

  /** ---------- symbols at the edges (line 109, line 115, line 129) ---------- */

  /** Characters NOT_ALLOWED_SYMBOLS_AT_START_AND_END (line 25) lets stand at the start. */
  predicate AllowedAtStart(c: char) {
    IsWordChar(c) || IsNonEnglish(c) || c == '#' || c == '[' || c == '\U{3010}' || c == '\U{2605}'
  }

  predicate NotAllowedAtStart(c: char) {
    !AllowedAtStart(c)
  }

  /** Characters the same regex strips from the end. */
  predicate IsSymbolAtEnd(c: char) {
    c == ' ' || c == '-' || c == ':' || c == '/' || c == '\\' || c == '[' || c == '|'
    || c == '{' || c == '(' || c == '#' || c == '$' || c == '&' || c == '^'
  }

  /** `s.replace(NOT_ALLOWED_SYMBOLS_AT_START_AND_END, "")`: the pattern is
      `^A+|B+$` without `g`, so a leading run of disallowed characters is
      removed when there is one, and only otherwise the trailing run of symbols. */
  function StripSymbolsAtEdges(s: string): (r: string)
    ensures |r| <= |s| && IsSubsequence(r, s)
    ensures s != [] && NotAllowedAtStart(s[0]) ==>
      && |r| < |s| && r == s[|s| - |r|..]
      && (r == [] || AllowedAtStart(r[0]))
      && forall i :: 0 <= i < |s| - |r| ==> NotAllowedAtStart(s[i])
    ensures s == [] || AllowedAtStart(s[0]) ==>
      && r == s[..|r|]
      && (r == [] || !IsSymbolAtEnd(r[|r| - 1]))
      && forall i :: |r| <= i < |s| ==> IsSymbolAtEnd(s[i])
  {
    if s != [] && NotAllowedAtStart(s[0]) then DropLeadingRun(s, NotAllowedAtStart)
    else DropTrailingRun(s, IsSymbolAtEnd)
  }

  /** Characters REMAINING_NOT_ALLOWED_SYMBOLS_AT_START_AND_END (line 26) lets stand at the start. */
  predicate AllowedAtStartAfterCleanup(c: char) {
    IsWordChar(c) || IsNonEnglish(c) || c == '#'
  }

  predicate NotAllowedAtStartAfterCleanup(c: char) {
    !AllowedAtStartAfterCleanup(c)
  }

  /** `s.replace(REMAINING_NOT_ALLOWED_SYMBOLS_AT_START_AND_END, "")`: a leading
      run of disallowed characters when there is one, otherwise one trailing `]`. */
  function StripLeftoverSymbols(s: string): (r: string)
    ensures |r| <= |s| && IsSubsequence(r, s)
    ensures s != [] && NotAllowedAtStartAfterCleanup(s[0]) ==>
      && |r| < |s| && r == s[|s| - |r|..]
      && (r == [] || AllowedAtStartAfterCleanup(r[0]))
      && forall i :: 0 <= i < |s| - |r| ==> NotAllowedAtStartAfterCleanup(s[i])
    ensures s == [] || AllowedAtStartAfterCleanup(s[0]) ==>
      r == if s != [] && s[|s| - 1] == ']' then s[..|s| - 1] else s
  {
    if s != [] && NotAllowedAtStartAfterCleanup(s[0]) then
      DropLeadingRun(s, NotAllowedAtStartAfterCleanup)
    else if s != [] && s[|s| - 1] == ']' then
      SubsequenceSlice(s, 0, |s| - 1);
      s[..|s| - 1]
    else
      SubsequenceReflexive(s);
      s
  }

  /** The characters of REDUNDANT_SYMBOLS_AT_END (line 27). */
  predicate IsRedundantAtEnd(c: char) {
    c == ' ' || c == '-' || c == ':' || c == '.' || c == '/' || c == '\\'
  }

  /** `s.replace(REDUNDANT_SYMBOLS_AT_END, "")`: the trailing run of those characters goes. */
  function StripRedundantAtEnd(s: string): (r: string)
    ensures |r| <= |s| && r == s[..|r|]
    ensures r == [] || !IsRedundantAtEnd(r[|r| - 1])
    ensures forall i :: |r| <= i < |s| ==> IsRedundantAtEnd(s[i])
    ensures forall c :: !IsRedundantAtEnd(c) ==> Count(r, c) == Count(s, c)
    ensures IsSubsequence(r, s)
  {
    var k := SuffixRunStart(s, IsRedundantAtEnd);
    StripEnds(s, 0, k, IsRedundantAtEnd);
    assert s[0..k] == s[..k];
    s[..k]
  }

  /** ---------- the first empty bracket pair (line 116, no `g`) ---------- */

  predicate IsOpener(c: char) {
    c == '(' || c == '[' || c == '{'
  }

  function CloserOf(c: char): char {
    if c == '(' then ')' else if c == '[' then ']' else '}'
  }

  /** `s` starts with an opener, `n - 2` whitespace characters and the matching closer. */
  ghost predicate EmptyPairOfLength(s: string, n: int) {
    2 <= n <= |s| && IsOpener(s[0]) && s[n - 1] == CloserOf(s[0])
    && forall i :: 1 <= i < n - 1 ==> IsJsSpace(s[i])
  }

  /** Length of the match of EMPTY_BRACKETS_REGEX (line 28) at the start of `s`, 0 for none. */
  function EmptyPairLength(s: string): (n: nat)
    ensures n == 0 || 2 <= n <= |s|
  {
    if s == [] || !IsOpener(s[0]) then 0
    else
      var w := LeadingSpaces(s[1..]);
      if w + 1 < |s| && s[w + 1] == CloserOf(s[0]) then w + 2 else 0
  }

  /** The regex matches at the start of `s` with length `m` exactly when
      `EmptyPairLength` reports `m`. */
  lemma EmptyPairLengthMeaning(s: string, m: int)
    ensures EmptyPairOfLength(s, m) <==> 0 < m == EmptyPairLength(s)
  {
    if s != [] && IsOpener(s[0]) {
      LeadingSpacesRun(s[1..]);
      var w := PrefixRun(s[1..], IsJsSpace);
      forall i | 1 <= i < w + 1 ensures IsJsSpace(s[i]) {
        assert s[i] == s[1..][i - 1];
      }
    }
  }

  /** An empty pair starts at `p`, and none starts earlier. */
  ghost predicate FirstEmptyPairAt(s: string, p: int) {
    0 <= p < |s| && EmptyPairLength(s[p..]) > 0
    && forall q :: 0 <= q < p ==> EmptyPairLength(s[q..]) == 0
  }

  /** The regex engine's leftmost search, from offset `from` on. */
  function FindEmptyPair(s: string, from: nat): (p: Option<nat>)
    requires from <= |s|
    ensures p.Some? ==> from <= p.value < |s| && EmptyPairLength(s[p.value..]) > 0
    ensures p.Some? ==> forall q :: from <= q < p.value ==> EmptyPairLength(s[q..]) == 0
    ensures p.None? ==> forall q :: from <= q < |s| ==> EmptyPairLength(s[q..]) == 0
    decreases |s| - from
  {
    if from == |s| then None
    else if EmptyPairLength(s[from..]) > 0 then Some(from)
    else FindEmptyPair(s, from + 1)
  }

  /** `s.replace(EMPTY_BRACKETS_REGEX, "")`: only the leftmost empty pair goes. */
  function RemoveFirstEmptyPair(s: string): (r: string)
    ensures IsSubsequence(r, s)
  {
    var found := FindEmptyPair(s, 0);
    if found.None? then
      SubsequenceReflexive(s);
      s
    else
      var p := found.value;
      var n := EmptyPairLength(s[p..]);
      SubsequenceSplice(s, p, p + n);
      s[..p] + s[p + n..]
  }

  /** Without an empty bracket pair the string is unchanged. */
  lemma NoEmptyPairUnchanged(s: string)
    requires forall p :: 0 <= p < |s| ==> EmptyPairLength(s[p..]) == 0
    ensures RemoveFirstEmptyPair(s) == s
  {
    var found := FindEmptyPair(s, 0);
  }

  /** With an empty bracket pair, exactly the leftmost one is cut out and the
      rest is kept in order. */
  lemma FirstEmptyPairRemoved(s: string, p: int)
    requires FirstEmptyPairAt(s, p)
    ensures RemoveFirstEmptyPair(s) == s[..p] + s[p + EmptyPairLength(s[p..])..]
  {
    var found := FindEmptyPair(s, 0);
    assert found == Some(p) by {
      var n := EmptyPairLength(s[p..]);
      assert n > 0;
    }
  }

  /** `()()` loses its first pair only, and the second is balanced, so nothing later removes it. */
  lemma OnlyFirstEmptyPairRemoved()
    ensures RemoveFirstEmptyPair("()()") == "()"
  {
    assert EmptyPairLength("()()") == 2;
  }

  /** ---------- unbalanced brackets (lines 17-20, 119-123) ---------- */

  /** BRACKETS: curly, square, round, in this order. */
  const Brackets: seq<(char, char)> := [('{', '}'), ('[', ']'), ('(', ')')]

  /** One iteration: when a kind's opening and closing counts differ, every
      bracket of that kind is deleted. */
  function BalanceKind(s: string, kind: (char, char)): (r: string)
    ensures Count(r, kind.0) == Count(r, kind.1)
    ensures Count(s, kind.0) == Count(s, kind.1) ==> r == s
    ensures Count(s, kind.0) != Count(s, kind.1) ==> kind.0 !in r && kind.1 !in r
    ensures forall c :: c != kind.0 && c != kind.1 ==> Count(r, c) == Count(s, c)
    ensures IsSubsequence(r, s)
  {
    if Count(s, kind.0) != Count(s, kind.1) then
      var r := RemoveChars(s, kind.0, kind.1);
      CountPositive(r, kind.0);
      CountPositive(r, kind.1);
      r
    else
      SubsequenceReflexive(s);
      s
  }

  /** No character plays a part in two kinds. */
  predicate DistinctKinds(kinds: seq<(char, char)>) {
    forall i, j :: 0 <= i < j < |kinds| ==>
      kinds[i].0 != kinds[j].0 && kinds[i].0 != kinds[j].1 && kinds[i].1 != kinds[j].0 && kinds[i].1 != kinds[j].1
  }

  predicate NotABracketOf(c: char, kinds: seq<(char, char)>) {
    forall k :: k in kinds ==> c != k.0 && c != k.1
  }

  /** The loop over `kinds`. */
  function BalanceBrackets(s: string, kinds: seq<(char, char)>): (r: string)
    ensures forall c :: NotABracketOf(c, kinds) ==> Count(r, c) == Count(s, c)
    ensures IsSubsequence(r, s)
    decreases |kinds|
  {
    if kinds == [] then
      SubsequenceReflexive(s);
      s
    else
      var s1 := BalanceKind(s, kinds[0]);
      var r := BalanceBrackets(s1, kinds[1..]);
      SubsequenceTransitive(r, s1, s);
      assert forall c :: NotABracketOf(c, kinds) ==> NotABracketOf(c, kinds[1..]);
      r
  }

  /** After the loop every kind has as many opening as closing brackets. */
  lemma {:induction false} BalanceBracketsBalanced(s: string, kinds: seq<(char, char)>)
    requires DistinctKinds(kinds)
    ensures forall k :: k in kinds ==> Count(BalanceBrackets(s, kinds), k.0) == Count(BalanceBrackets(s, kinds), k.1)
    decreases |kinds|
  {
    if kinds != [] {
      var s1 := BalanceKind(s, kinds[0]);
      var rest := kinds[1..];
      assert DistinctKinds(rest) by {
        forall i, j | 0 <= i < j < |rest| ensures rest[i].0 != rest[j].0 {
          assert rest[i] == kinds[i + 1] && rest[j] == kinds[j + 1];
        }
      }
      BalanceBracketsBalanced(s1, rest);
      var k0 := kinds[0];
      assert NotABracketOf(k0.0, rest) && NotABracketOf(k0.1, rest) by {
        forall k | k in rest ensures k0.0 != k.0 && k0.0 != k.1 && k0.1 != k.0 && k0.1 != k.1 {
          var j :| 0 <= j < |rest| && rest[j] == k;
          assert kinds[j + 1] == k;
        }
      }
    }
  }

  /** Each kind of BRACKETS has as many opening as closing brackets in `s`. */
  predicate BracketsBalanced(s: string) {
    && Count(s, '{') == Count(s, '}')
    && Count(s, '[') == Count(s, ']')
    && Count(s, '(') == Count(s, ')')
  }

  /** ---------- the patterns left abstract (lines 22-24, 111-112) ---------- */

  /** The offsets `[start, end)` of a regex's first match. */
  datatype Span = Span(start: nat, end: nat)

  /** Where the first match of each abstract pattern lies in a string (`None`: no match).
      `leadingTag` gives the offset of capture group 1 of the pattern at line 111
      (what `"$1"` keeps from there on); `trailingTag` the end of capture group 1
      of the pattern at line 112 (what is kept up to there). */
  datatype Scrubbers = Scrubbers(
    russianCast: string -> Option<Span>,
    leadingTag: string -> Option<nat>,
    trailingTag: string -> Option<nat>,
    altTitles: string -> Option<Span>,
    mixedScript: string -> Option<Span>)

  /** `s.replace(regex, "")` for a regex whose first match is `span`. */
  function DeleteSpan(s: string, span: Option<Span>): (r: string)
    ensures span.None? ==> r == s
    ensures span.Some? && span.value.start <= span.value.end <= |s| ==>
      r == s[..span.value.start] + s[span.value.end..]
    ensures IsSubsequence(r, s)
  {
    if span.None? then
      SubsequenceReflexive(s);
      s
    else
      var i := if span.value.start <= |s| then span.value.start else |s|;
      var j := if span.value.end < i then i else if span.value.end <= |s| then span.value.end else |s|;
      SubsequenceSplice(s, i, j);
      s[..i] + s[j..]
  }

  /** The replacement at line 111: everything before group 1 goes. */
  function DropPrefix(s: string, from: Option<nat>): (r: string)
    ensures from.None? ==> r == s
    ensures from.Some? && from.value <= |s| ==> r == s[from.value..]
    ensures IsSubsequence(r, s)
  {
    var i := if from.None? then 0 else if from.value <= |s| then from.value else |s|;
    SubsequenceSlice(s, i, |s|);
    assert s[i..|s|] == s[i..] && s[0..] == s;
    s[i..]
  }

  /** The replacement at line 112: everything after group 1 goes. */
  function DropSuffix(s: string, upTo: Option<nat>): (r: string)
    ensures upTo.None? ==> r == s
    ensures upTo.Some? && upTo.value <= |s| ==> r == s[..upTo.value]
    ensures IsSubsequence(r, s)
  {
    var j := if upTo.None? then |s| else if upTo.value <= |s| then upTo.value else |s|;
    SubsequenceSlice(s, 0, j);
    assert s[..|s|] == s;
    s[..j]
  }

  /** ---------- the cascade ---------- */

  /** Lines 103-108: the dot rule, underscores to spaces, `[(movie)]` markers. */
  function NormalizeSeparators(raw: string): (r: string)
    ensures '_' !in r
  {
    var s := ReplaceChar(DotsToSpaces(raw), '_', ' ');
    assert '_' !in s;
    var r := RemoveMovieMarkers(s);
    SubsequenceCount(r, s, '_');
    r
  }

  /** Lines 109-115: symbols at the edges, cast credits, tags, alternative
      titles, text in another script, leftover symbols. Only deletes. */
  function StripDecorations(s: string, sc: Scrubbers): (r: string)
    ensures IsSubsequence(r, s)
  {
    var s4 := StripSymbolsAtEdges(s);
    var s5 := DeleteSpan(s4, sc.russianCast(s4));
    var s6 := DropPrefix(s5, sc.leadingTag(s5));
    var s7 := DropSuffix(s6, sc.trailingTag(s6));
    var s8 := DeleteSpan(s7, sc.altTitles(s7));
    var s9 := DeleteSpan(s8, sc.mixedScript(s8));
    var r := StripLeftoverSymbols(s9);
    SubsequenceTransitive(s5, s4, s);
    SubsequenceTransitive(s6, s5, s);
    SubsequenceTransitive(s7, s6, s);
    SubsequenceTransitive(s8, s7, s);
    SubsequenceTransitive(s9, s8, s);
    SubsequenceTransitive(r, s9, s);
    r
  }

  /** Lines 116-123: the first empty pair, then every kind left unbalanced. */
  function TidyBrackets(s: string): (r: string)
    ensures IsSubsequence(r, s)
    ensures BracketsBalanced(r)
  {
    var s11 := RemoveFirstEmptyPair(s);
    var r := BalanceBrackets(s11, Brackets);
    SubsequenceTransitive(r, s11, s);
    BalanceBracketsBalanced(s11, Brackets);
    assert Brackets[0] in Brackets && Brackets[1] in Brackets && Brackets[2] in Brackets;
    r
  }

  /** The last three rewrites keep every character they neither turn into a
      space nor strip from the ends. */
  lemma FinishKeepsCount(s: string, c: char)
    requires c != '.' && !IsRedundantAtEnd(c) && !IsJsSpace(c)
    ensures Count(Trim(StripRedundantAtEnd(DotsToSpaces(s))), c) == Count(s, c)
  {
    DotsToSpacesCount(s, c);
  }

  /** ... so a kind of bracket balanced before them stays balanced. */
  lemma FinishKeepsKindBalanced(s: string, open: char, close: char)
    requires open in {'{', '[', '('} && close in {'}', ']', ')'}
    requires Count(s, open) == Count(s, close)
    ensures var r := Trim(StripRedundantAtEnd(DotsToSpaces(s)));
      Count(r, open) == Count(r, close)
  {
    FinishKeepsCount(s, open);
    FinishKeepsCount(s, close);
  }

  lemma FinishKeepsBalance(s: string)
    ensures BracketsBalanced(s) ==> BracketsBalanced(Trim(StripRedundantAtEnd(DotsToSpaces(s))))
  {
    if BracketsBalanced(s) {
      FinishKeepsKindBalanced(s, '{', '}');
      FinishKeepsKindBalanced(s, '[', ']');
      FinishKeepsKindBalanced(s, '(', ')');
    }
  }

  /** ... and they bring in no underscore. */
  lemma FinishKeepsNoUnderscore(s: string)
    ensures '_' !in s ==> '_' !in Trim(StripRedundantAtEnd(DotsToSpaces(s)))
  {
    FinishKeepsCount(s, '_');
    CountPositive(s, '_');
    CountPositive(Trim(StripRedundantAtEnd(DotsToSpaces(s))), '_');
  }

  /** Lines 125-130: the dot rule again, trailing separators, trim. */
  function FinishTitle(s: string): (r: string)
    ensures r == [] || (!IsJsSpace(r[0]) && !IsJsSpace(r[|r| - 1]))
    ensures '_' !in s ==> '_' !in r
    ensures BracketsBalanced(s) ==> BracketsBalanced(r)
  {
    var r := Trim(StripRedundantAtEnd(DotsToSpaces(s)));
    FinishKeepsNoUnderscore(s);
    FinishKeepsBalance(s);
    r
  }

  /** `cleanTitle(rawTitle)`. */
  function CleanTitle(raw: string, sc: Scrubbers): string {
    FinishTitle(TidyBrackets(StripDecorations(NormalizeSeparators(raw), sc)))
  }

  /** The presented title has no whitespace at either end, no underscore,
      and as many opening as closing brackets of each kind. */
  lemma CleanTitleGuarantees(raw: string, sc: Scrubbers)
    ensures var r := CleanTitle(raw, sc);
      && (r == [] || (!IsJsSpace(r[0]) && !IsJsSpace(r[|r| - 1])))
      && '_' !in r
      && BracketsBalanced(r)
  {
    var s1 := NormalizeSeparators(raw);
    var s2 := StripDecorations(s1, sc);
    var s3 := TidyBrackets(s2);
    SubsequenceCount(s2, s1, '_');
    SubsequenceCount(s3, s2, '_');
  }

  /** Scrubbers whose patterns never match. */
  const NoMatches := Scrubbers(_ => None, _ => None, _ => None, _ => None, _ => None)

  /** A short string that needs neither the dot rule nor underscore
      replacement passes lines 103-108 unchanged. */
  lemma NormalizeKeepsPlainText(s: string)
    requires ' ' in s || '.' !in s
    requires '_' !in s && |s| < |MovieMarker|
    ensures NormalizeSeparators(s) == s
  {
    var t := ReplaceChar(s, '_', ' ');
    assert t == s;
    ShortStringKeepsNoMarker(s);
  }

  /** When no abstract pattern matches, a string that starts with a word
      character and ends in neither a symbol nor `]` passes lines 109-115 unchanged. */
  lemma DecorationsKeepPlainText(s: string)
    requires s != [] && IsWordChar(s[0])
    requires !IsSymbolAtEnd(s[|s| - 1]) && s[|s| - 1] != ']'
    ensures StripDecorations(s, NoMatches) == s
  {
    assert StripSymbolsAtEdges(s) == s;
  }

  /** A string without brackets passes lines 116-123 unchanged. */
  lemma BracketsKeepPlainText(s: string)
    requires forall i :: 0 <= i < |s| ==> !IsOpener(s[i]) && s[i] != '}' && s[i] != ']' && s[i] != ')'
    ensures TidyBrackets(s) == s
  {
    forall p | 0 <= p < |s| ensures EmptyPairLength(s[p..]) == 0 {
      assert s[p..][0] == s[p];
    }
    NoEmptyPairUnchanged(s);
    var s1 := BalanceKind(s, Brackets[0]);
    var s2 := BalanceKind(s1, Brackets[1]);
    CountPositive(s, '{');
    CountPositive(s, '}');
    CountPositive(s, '[');
    CountPositive(s, ']');
    CountPositive(s, '(');
    CountPositive(s, ')');
    assert s1 == s && s2 == s;
    assert Brackets[1..][1..] == [Brackets[2]] && [Brackets[2]][1..] == [];
  }

  predicate IsLowerLetter(c: char) {
    'a' <= c <= 'z'
  }

  /** The last three rewrites of `x.y .` give `x.y`: the space keeps the
      dot rule from firing, and the trailing ` .` is stripped afterwards. */
  lemma FinishSpacedDottedPair(x: char, y: char)
    requires IsLowerLetter(x) && IsLowerLetter(y)
    ensures FinishTitle([x, '.', y, ' ', '.']) == [x, '.', y]
  {
    var s := [x, '.', y, ' ', '.'];
    assert DotsToSpaces(s) == s by {
      assert s[3] == ' ';
    }
    var k := StripRedundantAtEnd(s);
    assert k == [x, '.', y] by {
      assert !IsRedundantAtEnd(s[2]);
      assert |k| == 3;
    }
    TrimKeepsUnpadded(k);
  }

  /** A string with neither brackets nor symbols at its edges reaches line
      125 as the first rewrites left it, when no abstract pattern matches. */
  lemma PlainTextReachesFinish(raw: string, s: string)
    requires NormalizeSeparators(raw) == s
    requires s != [] && IsWordChar(s[0]) && !IsSymbolAtEnd(s[|s| - 1]) && s[|s| - 1] != ']'
    requires forall i :: 0 <= i < |s| ==> !IsOpener(s[i]) && s[i] != '}' && s[i] != ']' && s[i] != ')'
    ensures CleanTitle(raw, NoMatches) == FinishTitle(s)
  {
    DecorationsKeepPlainText(s);
    BracketsKeepPlainText(s);
  }

  /** `x.y .` cleans to `x.y`. */
  lemma CleanSpacedDottedPair(x: char, y: char)
    requires IsLowerLetter(x) && IsLowerLetter(y)
    ensures CleanTitle([x, '.', y, ' ', '.'], NoMatches) == [x, '.', y]
  {
    var s := [x, '.', y, ' ', '.'];
    NormalizeKeepsPlainText(s);
    assert IsWordChar(s[0]) && !IsSymbolAtEnd(s[4]) && s[4] != ']';
    assert forall i :: 0 <= i < |s| ==> !IsOpener(s[i]) && s[i] != '}' && s[i] != ']' && s[i] != ')';
    PlainTextReachesFinish(s, s);
    FinishSpacedDottedPair(x, y);
  }

  /** The first rewrite of `x.y` gives `x y`: with no space, every dot becomes one. */
  lemma NormalizeDottedPair(x: char, y: char)
    requires IsLowerLetter(x) && IsLowerLetter(y)
    ensures NormalizeSeparators([x, '.', y]) == [x, ' ', y]
  {
    var t := [x, '.', y];
    var u := [x, ' ', y];
    assert DotsToSpaces(t) == u by {
      assert t[1] == '.';
    }
    assert ReplaceChar(u, '_', ' ') == u;
    ShortStringKeepsNoMarker(u);
  }

  /** `x y` is left alone by the last three rewrites. */
  lemma FinishSpacedPair(x: char, y: char)
    requires IsLowerLetter(x) && IsLowerLetter(y)
    ensures FinishTitle([x, ' ', y]) == [x, ' ', y]
  {
    var u := [x, ' ', y];
    assert DotsToSpaces(u) == u by {
      assert u[1] == ' ';
    }
    assert StripRedundantAtEnd(u) == u by {
      assert !IsRedundantAtEnd(u[2]);
    }
    TrimKeepsUnpadded(u);
  }

  /** `x.y` cleans to `x y`. */
  lemma CleanDottedPair(x: char, y: char)
    requires IsLowerLetter(x) && IsLowerLetter(y)
    ensures CleanTitle([x, '.', y], NoMatches) == [x, ' ', y]
  {
    var s := [x, ' ', y];
    NormalizeDottedPair(x, y);
    assert IsWordChar(s[0]) && !IsSymbolAtEnd(s[2]) && s[2] != ']';
    assert forall i :: 0 <= i < |s| ==> !IsOpener(s[i]) && s[i] != '}' && s[i] != ']' && s[i] != ')';
    PlainTextReachesFinish([x, '.', y], s);
    FinishSpacedPair(x, y);
  }

  /** The cascade is not idempotent, contrary to what one might expect of a
      normalizer: cleaning `a.b .` gives `a.b`, and cleaning that again gives `a b`. */
  lemma CleanTitleNotIdempotent()
    ensures CleanTitle(CleanTitle("a.b .", NoMatches), NoMatches) != CleanTitle("a.b .", NoMatches)
  {
    CleanSpacedDottedPair('a', 'b');
    CleanDottedPair('a', 'b');
    assert "a.b ." == ['a', '.', 'b', ' ', '.'];
    assert "a.b" == ['a', '.', 'b'];
  }
}
