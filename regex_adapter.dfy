/** `createHandlerFromRegExp` (src/parser.js:57-92): the handler built from a
    named regex, a transformer and an option set. The regex search itself is
    abstract: the handler is given the first match of its regex on the current
    working title. What the handler decides with that match, and how it updates
    the result mapping and the matched registry, is modelled exactly. */
module RegexAdapter {
  import opened Wrappers
  import opened JsString
  import opened JsValue
  import opened HandlerOptions

  /** What `title.match(regExp)` yields for a regex without the `g` flag: the
      whole match, capture group 1 (`None` when the regex has no group 1 or it
      did not take part in the match) and the offset of the match. */
  datatype RegexMatch = RegexMatch(raw: string, group: Option<string>, index: int)

  /** A regex, as the function from a string to its first match in it. */
  type Pattern = string -> Option<RegexMatch>

  /** A transformer: (text to transform, previous value of the field) to the
      new value; a falsy result vetoes the match. */
  type Transformer = (string, Value) -> Value

  /** An entry of the matched registry: the first raw match recorded for a
      field and its offset in the working title as it was at that moment. */
  datatype MatchRecord = MatchRecord(rawMatch: string, matchIndex: int)

  type Matched = map<string, MatchRecord>

  /** What a handler reports to the parse loop. */
  datatype Outcome = Outcome(rawMatch: string, matchIndex: int, remove: bool, skipFromTitle: bool)

  /** The two maps after a handler call, and its outcome (`None` is `null`). */
  datatype Reply = Reply(result: Fields, matched: Matched, outcome: Option<Outcome>)

  /** `m` is a match the regex could have found in `title`. */
  predicate MatchesIn(title: string, m: RegexMatch) {
    0 <= m.index && m.index + |m.raw| <= |title| && title[m.index..m.index + |m.raw|] == m.raw
  }

  /** `cleanMatch || rawMatch`: capture group 1 when it is non-empty, else the whole match. */
  function TransformInput(m: RegexMatch): (t: string)
    ensures m.group.Some? && m.group.value != [] ==> t == m.group.value
    ensures m.group.None? || m.group.value == [] ==> t == m.raw
  {
    if m.group.Some? && m.group.value != [] then m.group.value else m.raw
  }

  predicate IsSquareBracket(c: char) {
    c == '[' || c == ']'
  }

  predicate NotSquareBracket(c: char) {
    !IsSquareBracket(c)
  }

  /** `title` starts with `[`, then `n > 0` characters none of which is a
      square bracket, then `]`. */
  ghost predicate LeadingBracketOfLength(title: string, n: int) {
    0 < n && n + 2 <= |title| && title[0] == '[' && title[n + 1] == ']'
    && forall i :: 1 <= i <= n ==> NotSquareBracket(title[i])
  }

  /** Capture group 1 of `title.match(/^\[([^[\]]+)]/)`: the content of a
      leading bracketed block with no bracket inside it. */
  function LeadingBracketContent(title: string): (c: Option<string>)
    ensures forall n :: LeadingBracketOfLength(title, n) <==> c.Some? && |c.value| == n
    ensures c.Some? ==> |c.value| + 2 <= |title| && c.value == title[1..|c.value| + 1]
  {
    if title == [] || title[0] != '[' then None
    else
      var n := PrefixRun(title[1..], NotSquareBracket);
      forall i | 1 <= i <= n ensures NotSquareBracket(title[i]) {
        assert title[i] == title[1..][i - 1];
      }
      if 0 < n && n + 1 < |title| && title[n + 1] == ']' then Some(title[1..n + 1]) else None
  }

  /** `isBeforeTitle`: the title opens with a bracketed block whose content
      contains the raw match as a substring. Where the match was found plays no part. */
  predicate IsBeforeTitle(title: string, rawMatch: string) {
    var c := LeadingBracketContent(title);
    c.Some? && Contains(c.value, rawMatch)
  }

  /** `isSkipIfFirst`: the option is set, some other field has been matched,
      and this match lies before every other recorded match. */
  predicate IsSkipIfFirst(options: Options, name: string, index: int, matched: Matched) {
    && IsSet(options.skipIfFirst)
    && (exists k :: k in matched && k != name)
    && (forall k :: k in matched && k != name ==> index < matched[k].matchIndex)
  }

  /** One call of the handler built for field `name`, given the first match
      `m` of its regex on the working title `title`. */
  function RegexReply(name: string, m: Option<RegexMatch>, transformer: Transformer, options: Options,
                      title: string, result: Fields, matched: Matched): (r: Reply)
    // The handler produces an outcome exactly when the field is not already
    // found (or may be found again), the regex matched something non-empty,
    // the transformer accepted the match and the skip-if-first rule is off.
    ensures r.outcome.Some? <==>
      && !(Truthy(Get(result, name)) && IsSet(options.skipIfAlreadyFound))
      && m.Some? && m.value.raw != []
      && Truthy(transformer(TransformInput(m.value), Get(result, name)))
      && !IsSkipIfFirst(options, name, m.value.index, matched)
    // `null` leaves both maps as they were.
    ensures r.outcome.None? ==> r.result == result && r.matched == matched
    ensures r.outcome.Some? ==>
      && r.outcome.value.rawMatch == m.value.raw
      && r.outcome.value.matchIndex == m.value.index
      && r.outcome.value.remove == IsSet(options.remove)
      && (r.outcome.value.skipFromTitle <==> IsSet(options.skipFromTitle) || IsBeforeTitle(title, m.value.raw))
    // On success the field holds a truthy value: `options.value` when that is
    // truthy, otherwise the transformed match; no other field changes.
    ensures r.outcome.Some? ==> r.result.Keys == result.Keys + {name} && Truthy(r.result[name])
    ensures r.outcome.Some? ==>
      r.result[name] == Or(options.value, transformer(TransformInput(m.value), Get(result, name)))
    ensures forall k :: k != name ==> Get(r.result, k) == Get(result, k)
    // The registry gains `name` on success, and keeps every entry it had,
    // including a first-recorded entry for `name`.
    ensures r.matched.Keys == matched.Keys + (if r.outcome.Some? then {name} else {})
    ensures forall k :: k in matched ==> r.matched[k] == matched[k]
    ensures r.outcome.Some? && name !in matched ==> r.matched[name] == MatchRecord(m.value.raw, m.value.index)
  {
    var previous := Get(result, name);
    if Truthy(previous) && IsSet(options.skipIfAlreadyFound) then Reply(result, matched, None)
    else if m.None? || m.value.raw == [] then Reply(result, matched, None)
    else
      var transformed := transformer(TransformInput(m.value), previous);
      var isBeforeTitle := IsBeforeTitle(title, m.value.raw);
      var isSkipIfFirst := IsSkipIfFirst(options, name, m.value.index, matched);
      if Truthy(transformed) && !isSkipIfFirst then
        var record := if name in matched then matched[name] else MatchRecord(m.value.raw, m.value.index);
        Reply(
          result[name := Or(options.value, transformed)],
          matched[name := record],
          Some(Outcome(m.value.raw, m.value.index, IsSet(options.remove), isBeforeTitle || IsSet(options.skipFromTitle))))
      else
        Reply(result, matched, None)
  }

  /** With `skipIfAlreadyFound` set, a second handler for a field that an
      earlier handler filled produces nothing and overwrites nothing. */
  lemma FoundFieldIsNotOverwritten(name: string, m1: Option<RegexMatch>, t1: Transformer, o1: Options,
                                   m2: Option<RegexMatch>, t2: Transformer, o2: Options,
                                   title1: string, title2: string, result: Fields, matched: Matched)
    requires RegexReply(name, m1, t1, o1, title1, result, matched).outcome.Some?
    requires IsSet(o2.skipIfAlreadyFound)
    ensures var r1 := RegexReply(name, m1, t1, o1, title1, result, matched);
      var r2 := RegexReply(name, m2, t2, o2, title2, r1.result, r1.matched);
      r2.outcome.None? && r2.result == r1.result && r2.matched == r1.matched
  {
  }

  /** The handler keeps "every matched field has a result" true. */
  lemma RegistryFollowsResults(name: string, m: Option<RegexMatch>, t: Transformer, o: Options,
                               title: string, result: Fields, matched: Matched)
    requires matched.Keys <= result.Keys
    ensures var r := RegexReply(name, m, t, o, title, result, matched);
      r.matched.Keys <= r.result.Keys
  {
  }

  /** A handler with `skipIfFirst` that does produce an outcome is not ahead
      of every other recorded match: either nothing else was matched yet, or
      some other field was recorded at or before its offset. */
  lemma SkipIfFirstPassesOnlyWhenNotFirst(name: string, m: Option<RegexMatch>, t: Transformer, o: Options,
                                          title: string, result: Fields, matched: Matched)
    requires IsSet(o.skipIfFirst)
    requires RegexReply(name, m, t, o, title, result, matched).outcome.Some?
    ensures (forall k :: k in matched ==> k == name)
         || exists k :: k in matched && k != name && matched[k].matchIndex <= m.value.index
  {
  }

  /** `isBeforeTitle` does not look at where the match is: in `[ab] ab` a match
      of `ab` at offset 5, outside the brackets, still counts as before the title. */
  lemma BeforeTitleIgnoresPosition()
    ensures MatchesIn("[ab] ab", RegexMatch("ab", None, 5))
    ensures IsBeforeTitle("[ab] ab", "ab")
  {
    assert LeadingBracketOfLength("[ab] ab", 2);
    assert "ab"[..2] == "ab";
  }

  /** The handler's in-place writes: `result` and `matched` are the objects the
      parse loop shares with every handler. */
  class MatchContext {
    var result: Fields
    var matched: Matched

    constructor ()
      ensures result == map[] && matched == map[]
    {
      result := map[];
      matched := map[];
    }

    /** Runs the handler for field `name` on the working title, writing
        `matched[name]` and `result[name]` in place on success. */
    method ApplyRegexHandler(name: string, pattern: Pattern, transformer: Transformer, options: Options,
                             title: string) returns (outcome: Option<Outcome>)
      modifies this
      ensures Reply(result, matched, outcome)
           == RegexReply(name, pattern(title), transformer, options, title, old(result), old(matched))
    {
      if Truthy(Get(result, name)) && IsSet(options.skipIfAlreadyFound) {
        return None;
      }
      var m := pattern(title);
      if m.Some? && m.value.raw != [] {
        var transformed := transformer(TransformInput(m.value), Get(result, name));
        var isBeforeTitle := IsBeforeTitle(title, m.value.raw);
        var isSkipIfFirst := IsSkipIfFirst(options, name, m.value.index, matched);
        if Truthy(transformed) && !isSkipIfFirst {
          if name !in matched {
            matched := matched[name := MatchRecord(m.value.raw, m.value.index)];
          }
          result := result[name := Or(options.value, transformed)];
          return Some(Outcome(m.value.raw, m.value.index, IsSet(options.remove),
                              isBeforeTitle || IsSet(options.skipFromTitle)));
        }
      }
      return None;
    }
  }
}
