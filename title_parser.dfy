/** The `Parser` class (src/parser.js:135-195): a registry of handlers and the
    parse loop that runs them in registration order over a working title,
    splicing out removed matches and moving the end-of-title boundary, before
    the cleaned title candidate is stored under `"title"`. */
module TitleParser {
  import opened Wrappers
  import opened JsString
  import opened JsValue
  import opened HandlerOptions
  import opened RegexAdapter
  import opened TitleCleaner

  /** ---------- underscores (line 171) ---------- */

  predicate IsUnderscore(c: char) {
    c == '_'
  }

  /** `s.replace(/_+/g, " ")`: every run of underscores becomes one space. */
  function CollapseUnderscores(s: string): (r: string)
    ensures '_' !in r
    ensures |r| <= |s|
    ensures '_' !in s ==> r == s
    ensures forall c :: c != '_' && c != ' ' ==> Count(r, c) == Count(s, c)
    decreases |s|
  {
    if s == [] then []
    else if s[0] == '_' then
      var n := PrefixRun(s, IsUnderscore);
      var rest := CollapseUnderscores(s[n..]);
      assert s == s[..n] + s[n..];
      forall c | c != '_' && c != ' ' ensures Count([' '] + rest, c) == Count(s, c) {
        CountAppend([' '], rest, c);
        CountAppend(s[..n], s[n..], c);
        CountInRun(s[..n], IsUnderscore, c);
      }
      [' '] + rest
    else
      var rest := CollapseUnderscores(s[1..]);
      assert s == [s[0]] + s[1..];
      forall c | c != '_' && c != ' ' ensures Count([s[0]] + rest, c) == Count(s, c) {
        CountAppend([s[0]], rest, c);
        CountAppend([s[0]], s[1..], c);
      }
      [s[0]] + rest
  }

  /** A run of underscores, however long, becomes a single space. */
  lemma CollapseRun(s: string)
    requires s != [] && forall i :: 0 <= i < |s| ==> s[i] == '_'
    ensures CollapseUnderscores(s) == " "
  {
    var n := PrefixRun(s, IsUnderscore);
    assert n == |s|;
    assert s[n..] == [];
  }

  /** The rewrite works piece by piece: it distributes over a concatenation
      whose seam does not fall inside a run of underscores. With `CollapseRun`
      and the identity on underscore-free text, this determines the result. */
  lemma {:induction false} CollapseAppend(a: string, b: string)
    requires a == [] || b == [] || a[|a| - 1] != '_' || b[0] != '_'
    ensures CollapseUnderscores(a + b) == CollapseUnderscores(a) + CollapseUnderscores(b)
    decreases |a|, 1
  {
    if a == [] {
      assert a + b == b;
    } else if a[0] != '_' {
      CollapseAppendPlain(a, b);
    } else {
      CollapseAppendRun(a, b);
    }
  }

  /** A leading run of underscores gives one space, and the rest follows. */
  lemma CollapseUnfoldRun(s: string)
    requires s != [] && s[0] == '_'
    ensures CollapseUnderscores(s) == [' '] + CollapseUnderscores(s[PrefixRun(s, IsUnderscore)..])
  {
  }

  lemma AppendAssociative(x: string, y: string, z: string)
    ensures x + (y + z) == (x + y) + z
  {
  }

  /** `CollapseAppend` when `a` starts with a character that is kept. */
  lemma {:induction false} CollapseAppendPlain(a: string, b: string)
    requires a != [] && a[0] != '_'
    requires b == [] || a[|a| - 1] != '_' || b[0] != '_'
    ensures CollapseUnderscores(a + b) == CollapseUnderscores(a) + CollapseUnderscores(b)
    decreases |a|, 0
  {
    assert (a + b)[0] == a[0] && (a + b)[1..] == a[1..] + b;
    CollapseAppend(a[1..], b);
  }

  /** `CollapseAppend` when `a` starts with a run of underscores. */
  lemma {:induction false} CollapseAppendRun(a: string, b: string)
    requires a != [] && a[0] == '_'
    requires b == [] || a[|a| - 1] != '_' || b[0] != '_'
    ensures CollapseUnderscores(a + b) == CollapseUnderscores(a) + CollapseUnderscores(b)
    decreases |a|, 0
  {
    var m := PrefixRun(a, IsUnderscore);
    assert m < |a| || b == [] || !IsUnderscore(b[0]);
    PrefixRunAppend(a, b, IsUnderscore);
    var tail := a[m..];
    assert (a + b)[m..] == tail + b;
    CollapseUnfoldRun(a);
    CollapseUnfoldRun(a + b);
    assert tail != [] ==> tail[|tail| - 1] == a[|a| - 1];
    CollapseAppend(tail, b);
    AppendAssociative([' '], CollapseUnderscores(tail), CollapseUnderscores(b));
  }

  /** ---------- handlers and their registration (lines 141-168) ---------- */

  /** A custom handler: called with the working title and the shared `result`
      and `matched` objects; it may rewrite both and returns an outcome or `null`. */
  type CustomHandler = (string, Fields, Matched) -> Reply

  /** A JavaScript function value, in either of the two roles it can be given. */
  datatype JsFunction = JsFunction(asHandler: CustomHandler, asTransformer: Transformer)

  /** An argument of `addHandler`, by its `typeof` / `instanceof` class;
      `Missing` is an argument left `undefined`. */
  datatype Arg =
    | Missing
    | Text(s: string)
    | RegExp(pattern: Pattern)
    | Function(f: JsFunction)
    | Object(o: OptionsObject?)
    | OtherValue

  /** A registered handler: built from a named regex, or a function carrying
      the `handlerName` property `addHandler` gave it. */
  datatype Handler =
    | RegExpHandler(name: string, pattern: Pattern, transformer: Transformer, options: Options)
    | FunctionHandler(handlerName: Arg, run: CustomHandler)

  /** The branch of `addHandler` an argument pair takes. */
  datatype Shape = UnnamedFunction | NamedRegExp | NamedFunction | Rejected

  /** The branches in source order: a lone function, a string name with a
      RegExp, any function as handler, and otherwise the error. */
  function ShapeOf(handlerName: Arg, handler: Arg): (sh: Shape)
    ensures sh == UnnamedFunction <==> handler.Missing? && handlerName.Function?
    ensures sh == NamedRegExp <==> handlerName.Text? && handler.RegExp?
    ensures sh == NamedFunction <==> handler.Function?
    ensures sh == Rejected <==>
      !(handler.Missing? && handlerName.Function?) && !(handlerName.Text? && handler.RegExp?) && !handler.Function?
  {
    if handler.Missing? && handlerName.Function? then UnnamedFunction
    else if handlerName.Text? && handler.RegExp? then NamedRegExp
    else if handler.Function? then NamedFunction
    else Rejected
  }

  /** What `addHandler` throws, without its message text. */
  datatype ConfigError = HandlerNotRegExpOrFunction

  /** The handler an accepted call appends; `options` is the option set as
      it was before `extendOptions` filled it in. A non-function transformer
      is replaced by `none`. */
  function Registered(handlerName: Arg, handler: Arg, transformer: Arg, options: Options,
                      none: Transformer): (h: Handler)
    requires ShapeOf(handlerName, handler) != Rejected
    ensures ShapeOf(handlerName, handler) == UnnamedFunction ==>
      h == FunctionHandler(Text("unknown"), handlerName.f.asHandler)
    ensures ShapeOf(handlerName, handler) == NamedFunction ==>
      h == FunctionHandler(handlerName, handler.f.asHandler)
    ensures ShapeOf(handlerName, handler) == NamedRegExp ==>
      && h.RegExpHandler? && h.name == handlerName.s && h.pattern == handler.pattern
      && h.options == WithDefaults(options) && Complete(h.options)
      && (transformer.Function? ==> h.transformer == transformer.f.asTransformer)
      && (!transformer.Function? ==> h.transformer == none)
  {
    match ShapeOf(handlerName, handler)
    case UnnamedFunction => FunctionHandler(Text("unknown"), handlerName.f.asHandler)
    case NamedRegExp =>
      RegExpHandler(handlerName.s, handler.pattern,
                    if transformer.Function? then transformer.f.asTransformer else none,
                    WithDefaults(options))
    case NamedFunction => FunctionHandler(handlerName, handler.f.asHandler)
  }

  /** ---------- one parse step (lines 177-188) ---------- */

  /** The loop's state: the working title, the boundary and the two maps. */
  datatype Cursor = Cursor(title: string, endOfTitle: int, result: Fields, matched: Matched)

  /** Lines 171-174. */
  function Start(input: string): (c: Cursor)
    ensures c.title == CollapseUnderscores(input)
    ensures c.endOfTitle == |c.title| && c.result == map[] && c.matched == map[]
  {
    var title := CollapseUnderscores(input);
    Cursor(title, |title|, map[], map[])
  }

  /** What handler `h` returns and leaves in the maps, on cursor `c`. */
  function HandlerReply(h: Handler, c: Cursor): Reply {
    match h
    case RegExpHandler(name, pattern, transformer, options) =>
      RegexReply(name, pattern(c.title), transformer, options, c.title, c.result, c.matched)
    case FunctionHandler(_, run) => run(c.title, c.result, c.matched)
  }

  /** Line 179: the match is cut out of the working title with `slice`. */
  function Splice(title: string, o: Outcome): string {
    JsSlice(title, 0, o.matchIndex) + JsSlice(title, o.matchIndex + |o.rawMatch|, |title|)
  }

  /** For a match the regex really found, the splice deletes exactly the
      matched characters. */
  lemma SpliceRemovesMatch(title: string, o: Outcome)
    requires MatchesIn(title, RegexMatch(o.rawMatch, None, o.matchIndex))
    ensures Splice(title, o) == title[..o.matchIndex] + title[o.matchIndex + |o.rawMatch|..]
  {
    var i := o.matchIndex;
    var j := i + |o.rawMatch|;
    SliceInRange(title, 0, i);
    SliceInRange(title, j, |title|);
    assert title[0..i] == title[..i] && title[j..|title|] == title[j..];
  }

  /** At a non-negative offset the splice only deletes: what is left keeps its order. */
  lemma SpliceKeepsOrder(title: string, o: Outcome)
    requires o.matchIndex >= 0
    ensures IsSubsequence(Splice(title, o), title)
  {
    var i := if o.matchIndex <= |title| then o.matchIndex else |title|;
    var j := if o.matchIndex + |o.rawMatch| <= |title| then o.matchIndex + |o.rawMatch| else |title|;
    assert JsSlice(title, 0, o.matchIndex) == title[..i];
    assert JsSlice(title, o.matchIndex + |o.rawMatch|, |title|) == title[j..];
    SubsequenceSplice(title, i, j);
  }

  /** At a negative offset (only a custom handler can report one) `slice`
      counts from the end, and the splice can lengthen the title: in `abcdef`
      a three-character match reported at -2 leaves `abcdbcdef`. */
  lemma SpliceAtNegativeOffset()
    ensures Splice("abcdef", Outcome("xyz", -2, true, false)) == "abcdbcdef"
  {
    assert JsSlice("abcdef", 0, -2) == "abcd";
    assert JsSlice("abcdef", 1, 6) == "bcdef";
  }

  /** Lines 181-188: the boundary is first lowered to a match that counts as
      title end, then moved back by the length of a match that is both
      removed and skipped when it lay before the boundary. */
  function NextEnd(endOfTitle: int, o: Option<Outcome>): (e: int)
    // The boundary never moves right; `null` leaves it alone.
    ensures e <= endOfTitle
    ensures o.None? ==> e == endOfTitle
    // A match at offset 0 is falsy for line 181 and never becomes the boundary.
    ensures o.Some? && o.value.matchIndex == 0 && !o.value.skipFromTitle ==> e == endOfTitle
    // At most one of the two rules applies, and each needs its own
    // `skipFromTitle` value.
    ensures || e == endOfTitle
            || (o.Some? && !o.value.skipFromTitle && o.value.matchIndex != 0
                && o.value.matchIndex < endOfTitle && e == o.value.matchIndex)
            || (o.Some? && o.value.skipFromTitle && o.value.remove
                && o.value.matchIndex < endOfTitle && e == endOfTitle - |o.value.rawMatch|)
    ensures o.Some? && !o.value.skipFromTitle && o.value.matchIndex != 0 && o.value.matchIndex < endOfTitle ==>
      e == o.value.matchIndex
    ensures o.Some? && o.value.skipFromTitle && o.value.remove && o.value.matchIndex < endOfTitle ==>
      e == endOfTitle - |o.value.rawMatch|
  {
    if o.None? then endOfTitle
    else
      var lowered :=
        if !o.value.skipFromTitle && o.value.matchIndex != 0 && o.value.matchIndex < endOfTitle
        then o.value.matchIndex else endOfTitle;
      if o.value.remove && o.value.skipFromTitle && o.value.matchIndex < lowered
      then lowered - |o.value.rawMatch| else lowered
  }

  /** The boundary can become negative: after a boundary at 5, a removed and
      skipped match of length 10 at offset 0 moves it to -5, and the final
      `slice(0, -5)` then keeps all but the last five characters. */
  lemma BoundaryCanGoNegative(rawMatch: string, title: string)
    requires |rawMatch| == 10 && |title| >= 5
    ensures NextEnd(5, Some(Outcome(rawMatch, 0, true, true))) == -5
    ensures JsSlice(title, 0, -5) == title[..|title| - 5]
  {
  }

  /** One iteration of the loop. */
  function Step(c: Cursor, h: Handler): (d: Cursor)
    ensures var r := HandlerReply(h, c);
      && d.result == r.result && d.matched == r.matched
      && d.endOfTitle == NextEnd(c.endOfTitle, r.outcome)
      && (r.outcome.Some? && r.outcome.value.remove ==> d.title == Splice(c.title, r.outcome.value))
      && (r.outcome.None? || !r.outcome.value.remove ==> d.title == c.title)
  {
    var r := HandlerReply(h, c);
    var title := if r.outcome.Some? && r.outcome.value.remove then Splice(c.title, r.outcome.value) else c.title;
    Cursor(title, NextEnd(c.endOfTitle, r.outcome), r.result, r.matched)
  }

  /** The loop over `hs`, in order. */
  function Run(c: Cursor, hs: seq<Handler>): Cursor
    decreases |hs|
  {
    if hs == [] then c else Step(Run(c, hs[..|hs| - 1]), hs[|hs| - 1])
  }

  /** Over a whole run the boundary never moves right. */
  lemma {:induction false} RunNeverRaisesBoundary(c: Cursor, hs: seq<Handler>)
    ensures Run(c, hs).endOfTitle <= c.endOfTitle
    decreases |hs|
  {
    if hs != [] {
      RunNeverRaisesBoundary(c, hs[..|hs| - 1]);
    }
  }

  /** The regex finds what it reports: its match lies where it says. */
  ghost predicate FaithfulPattern(p: Pattern) {
    forall s :: p(s).Some? ==> MatchesIn(s, p(s).value)
  }

  /** A handler whose every outcome lies at a non-negative offset. */
  ghost predicate ReportsNonNegativeOffsets(h: Handler) {
    match h
    case RegExpHandler(_, pattern, _, _) => FaithfulPattern(pattern)
    case FunctionHandler(_, run) =>
      forall t, r, m :: run(t, r, m).outcome.Some? ==> run(t, r, m).outcome.value.matchIndex >= 0
  }

  /** With such handlers the working title only ever loses characters, and
      the ones it keeps stay in order. */
  lemma {:induction false} RunKeepsOrder(c: Cursor, hs: seq<Handler>)
    requires forall i :: 0 <= i < |hs| ==> ReportsNonNegativeOffsets(hs[i])
    ensures IsSubsequence(Run(c, hs).title, c.title)
    decreases |hs|
  {
    if hs == [] {
      SubsequenceReflexive(c.title);
    } else {
      var prefix := hs[..|hs| - 1];
      var h := hs[|hs| - 1];
      var before := Run(c, prefix);
      RunKeepsOrder(c, prefix);
      var r := HandlerReply(h, before);
      if r.outcome.Some? && r.outcome.value.remove {
        assert r.outcome.value.matchIndex >= 0 by {
          assert ReportsNonNegativeOffsets(h);
          match h
          case RegExpHandler(_, pattern, _, _) =>
            assert MatchesIn(before.title, pattern(before.title).value);
          case FunctionHandler(_, run) =>
        }
        SpliceKeepsOrder(before.title, r.outcome.value);
        SubsequenceTransitive(Run(c, hs).title, before.title, c.title);
      }
    }
  }

  /** Line 191: the title candidate before cleaning. */
  function TitleCandidate(c: Cursor): (t: string)
    ensures |t| <= |c.title| && t == c.title[..|t|]
    ensures 0 <= c.endOfTitle <= |c.title| ==> t == c.title[..c.endOfTitle]
    // A boundary past the end is clamped: the candidate is the whole title.
    ensures c.endOfTitle >= |c.title| ==> t == c.title
    // A negative boundary counts from the end.
    ensures c.endOfTitle < 0 ==>
      |t| == if |c.title| + c.endOfTitle < 0 then 0 else |c.title| + c.endOfTitle
  {
    SlicePrefix(c.title, c.endOfTitle);
    JsSlice(c.title, 0, c.endOfTitle)
  }

  /** Line 191: the cleaned candidate is stored under `"title"`, over
      whatever a handler put there; every other field is the handlers'. */
  function StoreTitle(c: Cursor, sc: Scrubbers): (r: Fields)
    ensures r.Keys == c.result.Keys + {"title"}
    ensures r["title"] == Str(CleanTitle(TitleCandidate(c), sc))
    ensures forall k :: k != "title" ==> Get(r, k) == Get(c.result, k)
  {
    c.result["title" := Str(CleanTitle(TitleCandidate(c), sc))]
  }

  /** `parse(title)` as a function of the handler list. */
  function ParseResult(hs: seq<Handler>, sc: Scrubbers, input: string): Fields {
    StoreTitle(Run(Start(input), hs), sc)
  }

  /** The stored title is trimmed, has no underscore, and balances every kind of bracket. */
  lemma ParsedTitleIsClean(hs: seq<Handler>, sc: Scrubbers, input: string)
    ensures var v := ParseResult(hs, sc, input)["title"];
      && v.Str?
      && (v.s == [] || (!IsJsSpace(v.s[0]) && !IsJsSpace(v.s[|v.s| - 1])))
      && '_' !in v.s
      && BracketsBalanced(v.s)
  {
    CleanTitleGuarantees(TitleCandidate(Run(Start(input), hs)), sc);
  }

  /** With no handler, the whole underscore-collapsed input is the title candidate. */
  lemma NoHandlersCleanWholeInput(sc: Scrubbers, input: string)
    ensures ParseResult([], sc, input) == map["title" := Str(CleanTitle(CollapseUnderscores(input), sc))]
  {
    var t := CollapseUnderscores(input);
    SliceInRange(t, 0, |t|);
    assert t[0..|t|] == t;
  }

  /** ---------- the class ---------- */

  class Parser {
    var handlers: seq<Handler>
    /** The `none` transformer of `./transformers`, which is not part of this model. */
    const none: Transformer
    /** Where the abstract patterns of lines 22-24 and 111-112 first match. */
    const scrubbers: Scrubbers

    constructor (none: Transformer, scrubbers: Scrubbers)
      ensures handlers == [] && this.none == none && this.scrubbers == scrubbers
    {
      handlers := [];
      this.none := none;
      this.scrubbers := scrubbers;
    }

    /** `addHandler(handlerName, handler, transformer, options)`. An options
        object given as third argument is ignored: line 152 tests the
        transformer after line 151 has replaced it by a function. */
    method AddHandler(handlerName: Arg, handler: Arg, transformer: Arg, options: OptionsObject?)
      returns (error: Option<ConfigError>)
      modifies this, options
      ensures error.Some? <==> ShapeOf(handlerName, handler) == Rejected
      ensures error.Some? ==> handlers == old(handlers)
      ensures error.None? ==>
        handlers == old(handlers) + [Registered(handlerName, handler, transformer,
                                                if options == null then EmptyOptions else old(options.Snapshot()), none)]
      // Only the RegExp branch fills in the caller's options object.
      ensures ShapeOf(handlerName, handler) == NamedRegExp && options != null ==>
        options.Snapshot() == WithDefaults(old(options.Snapshot()))
      ensures ShapeOf(handlerName, handler) != NamedRegExp && options != null ==>
        options.Snapshot() == old(options.Snapshot())
    {
      var shape := ShapeOf(handlerName, handler);
      if shape == UnnamedFunction {
        handlers := handlers + [FunctionHandler(Text("unknown"), handlerName.f.asHandler)];
      } else if shape == NamedRegExp {
        var t := if transformer.Function? then transformer.f.asTransformer else none;
        var extended := ExtendOptions(options);
        handlers := handlers + [RegExpHandler(handlerName.s, handler.pattern, t, extended.Snapshot())];
      } else if shape == NamedFunction {
        handlers := handlers + [FunctionHandler(handlerName, handler.f.asHandler)];
      } else {
        return Some(HandlerNotRegExpOrFunction);
      }
      return None;
    }

    /** `parse(title)`: runs every handler once, in registration order. */
    method Parse(input: string) returns (result: Fields)
      ensures result == ParseResult(handlers, scrubbers, input)
    {
      var title := CollapseUnderscores(input);
      var context := new MatchContext();
      var endOfTitle := |title|;
      var i := 0;
      while i < |handlers|
        invariant 0 <= i <= |handlers|
        invariant Cursor(title, endOfTitle, context.result, context.matched) == Run(Start(input), handlers[..i])
      {
        title, endOfTitle := RunHandler(handlers[i], title, endOfTitle, context);
        assert handlers[..i + 1][..i] == handlers[..i];
        i := i + 1;
      }
      assert handlers[..i] == handlers;
      result := context.result["title" := Str(CleanTitle(JsSlice(title, 0, endOfTitle), scrubbers))];
    }
  }

  /** Lines 177-178: the handler is called on the working title and the shared
      maps; the boundary plays no part in its reply. */
  method CallHandler(h: Handler, title: string, context: MatchContext) returns (outcome: Option<Outcome>)
    modifies context
    ensures Reply(context.result, context.matched, outcome)
         == HandlerReply(h, Cursor(title, 0, old(context.result), old(context.matched)))
  {
    match h {
      case RegExpHandler(name, pattern, transformer, options) =>
        outcome := context.ApplyRegexHandler(name, pattern, transformer, options, title);
      case FunctionHandler(_, run) =>
        var reply := run(title, context.result, context.matched);
        context.result := reply.result;
        context.matched := reply.matched;
        outcome := reply.outcome;
    }
  }

  /** One pass of the loop body (lines 177-188): the handler reads and writes
      the shared maps, then the title and the boundary are updated from its outcome. */
  method RunHandler(h: Handler, title: string, endOfTitle: int, context: MatchContext)
    returns (newTitle: string, newEnd: int)
    modifies context
    ensures Cursor(newTitle, newEnd, context.result, context.matched)
         == Step(Cursor(title, endOfTitle, old(context.result), old(context.matched)), h)
  {
    var outcome := CallHandler(h, title, context);
    assert HandlerReply(h, Cursor(title, 0, old(context.result), old(context.matched)))
        == HandlerReply(h, Cursor(title, endOfTitle, old(context.result), old(context.matched)));
    newTitle, newEnd := title, endOfTitle;
    if outcome.Some? && outcome.value.remove {
      var o := outcome.value;
      newTitle := JsSlice(title, 0, o.matchIndex) + JsSlice(title, o.matchIndex + |o.rawMatch|, |title|);
    }
    if outcome.Some? && !outcome.value.skipFromTitle && outcome.value.matchIndex != 0
       && outcome.value.matchIndex < newEnd {
      newEnd := outcome.value.matchIndex;
    }
    if outcome.Some? && outcome.value.remove && outcome.value.skipFromTitle
       && outcome.value.matchIndex < newEnd {
      newEnd := newEnd - |outcome.value.rawMatch|;
    }
  }
}
