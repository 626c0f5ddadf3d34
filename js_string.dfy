/** The JavaScript string operations the title parser relies on, stated on
    `seq<char>`: `slice`, `trim`, `includes`, counting one character, replacing
    or deleting every occurrence of a character, and the maximal runs that an
    anchored character-class patterns `^[...]+` and `[...]+$` match. */
module JsString {

  /** `\s` in a JavaScript regex, and what `String.prototype.trim` removes:
      the WhiteSpace and LineTerminator characters of ECMA-262. */
  predicate IsJsSpace(c: char) {
    c == '\t' || c == '\n' || c == '\U{B}' || c == '\U{C}' || c == '\r' || c == ' '
    || c == '\U{A0}' || c == '\U{1680}' || ('\U{2000}' <= c <= '\U{200A}')
    || c == '\U{2028}' || c == '\U{2029}' || c == '\U{202F}' || c == '\U{205F}'
    || c == '\U{3000}' || c == '\U{FEFF}'
  }

  /** Number of occurrences of `c` in `s` (the length of `s.match(/c/g) || []`). */
  function Count(s: string, c: char): nat {
    if s == [] then 0 else (if s[0] == c then 1 else 0) + Count(s[1..], c)
  }

  lemma {:induction false} CountAppend(a: string, b: string, c: char)
    ensures Count(a + b, c) == Count(a, c) + Count(b, c)
  {
    if a != [] {
      assert (a + b)[0] == a[0] && (a + b)[1..] == a[1..] + b;
      CountAppend(a[1..], b, c);
    } else {
      assert a + b == b;
    }
  }

  /** A character occurs in `s` exactly when it is counted at least once. */
  lemma {:induction false} CountPositive(s: string, c: char)
    ensures Count(s, c) > 0 <==> c in s
  {
    if s != [] {
      CountPositive(s[1..], c);
      assert c in s <==> s[0] == c || c in s[1..];
    }
  }

  /** `s.replace(/from/g, to)` for a single character `from`. */
  function ReplaceChar(s: string, from: char, to: char): (r: string)
    ensures |r| == |s|
    ensures forall i :: 0 <= i < |s| ==> r[i] == (if s[i] == from then to else s[i])
  {
    if s == [] then [] else [if s[0] == from then to else s[0]] + ReplaceChar(s[1..], from, to)
  }

  /** Replacing one character by another leaves every third character's count alone. */
  lemma {:induction false} ReplaceCharCount(s: string, from: char, to: char, c: char)
    requires c != from && c != to
    ensures Count(ReplaceChar(s, from, to), c) == Count(s, c)
  {
    if s != [] {
      ReplaceCharCount(s[1..], from, to, c);
      assert ReplaceChar(s, from, to)[1..] == ReplaceChar(s[1..], from, to);
    }
  }

  /** `s.split(a).join("").split(b).join("")`: every `a` and every `b` deleted. */
  function RemoveChars(s: string, a: char, b: char): (r: string)
    ensures a !in r && b !in r
    ensures forall c :: c != a && c != b ==> Count(r, c) == Count(s, c)
    ensures IsSubsequence(r, s)
  {
    if s == [] then []
    else if s[0] == a || s[0] == b then
      var t := RemoveChars(s[1..], a, b);
      SubsequenceOfTail(t, s);
      t
    else
      [s[0]] + RemoveChars(s[1..], a, b)
  }

  /** `sub` occurs in `s` as a contiguous block: JavaScript's `s.includes(sub)`. */
  predicate Contains(s: string, sub: string) {
    |sub| <= |s| && (s[..|sub|] == sub || (s != [] && Contains(s[1..], sub)))
  }

  /** `sub` starts at offset `i` of `s`. */
  ghost predicate OccursAt(s: string, sub: string, i: int) {
    0 <= i <= |s| - |sub| && s[i..i + |sub|] == sub
  }

  /** `Contains` is the substring test: some offset of `s` starts a copy of `sub`. */
  lemma {:induction false} ContainsIff(s: string, sub: string)
    ensures Contains(s, sub) <==> exists i :: OccursAt(s, sub, i)
  {
    if |sub| <= |s| && s[..|sub|] == sub {
      assert OccursAt(s, sub, 0);
    } else if |sub| <= |s| && s != [] {
      ContainsIff(s[1..], sub);
      if Contains(s[1..], sub) {
        var i :| OccursAt(s[1..], sub, i);
        assert s[1..][i..i + |sub|] == s[i + 1..i + 1 + |sub|];
        assert OccursAt(s, sub, i + 1);
      }
      if exists i :: OccursAt(s, sub, i) {
        var i :| OccursAt(s, sub, i);
        assert i != 0;
        assert s[1..][i - 1..i - 1 + |sub|] == s[i..i + |sub|];
        assert OccursAt(s[1..], sub, i - 1);
      }
    }
  }

  /** `a` is obtained from `b` by deleting characters. */
  predicate IsSubsequence(a: string, b: string) {
    if a == [] then true
    else if b == [] then false
    else if a[0] == b[0] then IsSubsequence(a[1..], b[1..])
    else IsSubsequence(a, b[1..])
  }

  lemma {:induction false} SubsequenceOfTail(a: string, b: string)
    requires b != [] && IsSubsequence(a, b[1..])
    ensures IsSubsequence(a, b)
  {
    if a != [] && a[0] == b[0] {
      SubsequenceDropFirst(a, b[1..]);
    }
  }

  lemma {:induction false} SubsequenceDropFirst(a: string, b: string)
    requires a != [] && IsSubsequence(a, b)
    ensures IsSubsequence(a[1..], b)
  {
    if a[0] != b[0] {
      SubsequenceDropFirst(a, b[1..]);
      SubsequenceOfTail(a[1..], b);
    } else if a[1..] != [] {
      SubsequenceOfTail(a[1..], b);
    }
  }

  lemma {:induction false} SubsequenceReflexive(s: string)
    ensures IsSubsequence(s, s)
  {
    if s != [] {
      SubsequenceReflexive(s[1..]);
    }
  }

  lemma {:induction false} SubsequenceTransitive(a: string, b: string, c: string)
    requires IsSubsequence(a, b) && IsSubsequence(b, c)
    ensures IsSubsequence(a, c)
    decreases |c|
  {
    if a != [] {
      if b[0] == c[0] {
        if a[0] == b[0] {
          SubsequenceTransitive(a[1..], b[1..], c[1..]);
        } else {
          SubsequenceTransitive(a, b[1..], c[1..]);
        }
      } else {
        SubsequenceTransitive(a, b, c[1..]);
        SubsequenceOfTail(a, c);
      }
    }
  }

  /** Deleting characters cannot introduce a character, nor raise its count. */
  lemma {:induction false} SubsequenceCount(a: string, b: string, c: char)
    requires IsSubsequence(a, b)
    ensures Count(a, c) <= Count(b, c)
    ensures c !in b ==> c !in a
  {
    if a != [] {
      if a[0] == b[0] {
        SubsequenceCount(a[1..], b[1..], c);
      } else {
        SubsequenceCount(a, b[1..], c);
      }
    }
    CountPositive(a, c);
    CountPositive(b, c);
  }

  /** A suffix of `s` is a subsequence of `s`. */
  lemma {:induction false} SubsequenceSuffix(s: string, j: nat)
    requires j <= |s|
    ensures IsSubsequence(s[j..], s)
  {
    if j == 0 {
      assert s[0..] == s;
      SubsequenceReflexive(s);
    } else {
      SubsequenceSuffix(s[1..], j - 1);
      assert s[1..][j - 1..] == s[j..];
      SubsequenceOfTail(s[j..], s);
    }
  }

  /** Keeping a prefix and a suffix that do not overlap deletes the block between them. */
  lemma {:induction false} SubsequenceSplice(s: string, i: nat, j: nat)
    requires i <= j <= |s|
    ensures IsSubsequence(s[..i] + s[j..], s)
    decreases |s|
  {
    var x := s[..i] + s[j..];
    if i > 0 {
      var t := s[1..];
      SubsequenceSplice(t, i - 1, j - 1);
      assert x[0] == s[0] && x[1..] == t[..i - 1] + t[j - 1..];
    } else {
      assert x == s[j..];
      SubsequenceSuffix(s, j);
    }
  }

  /** A contiguous block of `s` is a subsequence of `s`. */
  lemma SubsequenceSlice(s: string, a: nat, b: nat)
    requires a <= b <= |s|
    ensures IsSubsequence(s[a..b], s)
  {
    SubsequenceSplice(s, 0, a);
    assert s[..0] + s[a..] == s[a..];
    var t := s[a..];
    SubsequenceSplice(t, b - a, |t|);
    assert t[..b - a] + t[|t|..] == s[a..b];
    SubsequenceTransitive(s[a..b], t, s);
  }

  /** Cutting off a prefix and a suffix made only of characters satisfying `p`
      keeps every other character, with its count. */
  lemma StripEnds(s: string, a: nat, b: nat, p: char -> bool)
    requires a <= b <= |s|
    requires forall i :: 0 <= i < a ==> p(s[i])
    requires forall i :: b <= i < |s| ==> p(s[i])
    ensures forall c :: !p(c) ==> Count(s[a..b], c) == Count(s, c)
    ensures IsSubsequence(s[a..b], s)
  {
    assert s == s[..a] + (s[a..b] + s[b..]);
    forall c | !p(c) ensures Count(s[a..b], c) == Count(s, c) {
      CountAppend(s[..a], s[a..b] + s[b..], c);
      CountAppend(s[a..b], s[b..], c);
      CountInRun(s[..a], p, c);
      CountInRun(s[b..], p, c);
    }
    SubsequenceSlice(s, a, b);
  }

  /** Length of the longest prefix of `s` whose characters all satisfy `p`:
      what an anchored `^[class]*` pattern matches. */
  function PrefixRun(s: string, p: char -> bool): (n: nat)
    ensures n <= |s|
    ensures forall i :: 0 <= i < n ==> p(s[i])
    ensures n < |s| ==> !p(s[n])
  {
    if s == [] || !p(s[0]) then 0 else 1 + PrefixRun(s[1..], p)
  }

  /** The run of `a` is the run of `a + b` when it stops inside `a`, or when
      `b` does not continue it. */
  lemma PrefixRunAppend(a: string, b: string, p: char -> bool)
    requires PrefixRun(a, p) < |a| || b == [] || !p(b[0])
    ensures PrefixRun(a + b, p) == PrefixRun(a, p)
  {
    var m := PrefixRun(a, p);
    assert forall i :: 0 <= i < m ==> p((a + b)[i]) by {
      forall i | 0 <= i < m ensures (a + b)[i] == a[i] { }
    }
    assert m < |a + b| ==> !p((a + b)[m]) by {
      if m < |a + b| {
        assert (a + b)[m] == if m < |a| then a[m] else b[0];
      }
    }
  }

  /** `PrefixRun(s, IsJsSpace)` written out, so that code relying on it only
      through `LeadingSpacesRun` does not carry the run's quantified facts. */
  function LeadingSpaces(s: string): nat {
    if s == [] || !IsJsSpace(s[0]) then 0 else 1 + LeadingSpaces(s[1..])
  }

  lemma {:induction false} LeadingSpacesRun(s: string)
    ensures LeadingSpaces(s) == PrefixRun(s, IsJsSpace)
  {
    if s != [] && IsJsSpace(s[0]) {
      LeadingSpacesRun(s[1..]);
    }
  }

  /** Start of the longest suffix of `s` whose characters all satisfy `p`:
      where the leftmost match of `[class]+$` begins, when there is one. */
  function SuffixRunStart(s: string, p: char -> bool): (k: nat)
    ensures k <= |s|
    ensures forall i :: k <= i < |s| ==> p(s[i])
    ensures k > 0 ==> !p(s[k - 1])
  {
    if s == [] || !p(s[|s| - 1]) then |s| else SuffixRunStart(s[..|s| - 1], p)
  }

  /** `s.replace(/^[class]+/, "")`: the leading run of characters satisfying `p` goes. */
  function DropLeadingRun(s: string, p: char -> bool): (r: string)
    ensures |r| <= |s| && r == s[|s| - |r|..] && IsSubsequence(r, s)
    ensures r == [] || !p(r[0])
    ensures forall i :: 0 <= i < |s| - |r| ==> p(s[i])
    ensures s != [] && p(s[0]) ==> |r| < |s|
    ensures s == [] || !p(s[0]) ==> r == s
  {
    var n := PrefixRun(s, p);
    SubsequenceSuffix(s, n);
    s[n..]
  }

  /** `s.replace(/[class]+$/, "")`: the trailing run of characters satisfying `p` goes. */
  function DropTrailingRun(s: string, p: char -> bool): (r: string)
    ensures |r| <= |s| && r == s[..|r|] && IsSubsequence(r, s)
    ensures r == [] || !p(r[|r| - 1])
    ensures forall i :: |r| <= i < |s| ==> p(s[i])
    ensures s != [] && p(s[|s| - 1]) ==> |r| < |s|
    ensures s == [] || !p(s[|s| - 1]) ==> r == s
  {
    var k := SuffixRunStart(s, p);
    SubsequenceSplice(s, k, |s|);
    assert s[..k] + s[|s|..] == s[..k];
    s[..k]
  }

  /** A block all of whose characters satisfy `p` holds none that fails it. */
  lemma {:induction false} CountInRun(s: string, p: char -> bool, c: char)
    requires forall i :: 0 <= i < |s| ==> p(s[i])
    requires !p(c)
    ensures Count(s, c) == 0
  {
    if s != [] {
      CountInRun(s[1..], p, c);
    }
  }

  /** `s.trim()`. */
  function Trim(s: string): (r: string)
    ensures r == [] || (!IsJsSpace(r[0]) && !IsJsSpace(r[|r| - 1]))
    // Exactly the leading and the trailing whitespace runs go.
    ensures var a := PrefixRun(s, IsJsSpace);
      && a + |r| <= |s| && r == s[a..a + |r|]
      && forall i :: a + |r| <= i < |s| ==> IsJsSpace(s[i])
    ensures forall c :: !IsJsSpace(c) ==> Count(r, c) == Count(s, c)
    ensures IsSubsequence(r, s)
  {
    var a := PrefixRun(s, IsJsSpace);
    var b := a + SuffixRunStart(s[a..], IsJsSpace);
    forall i | b <= i < |s| ensures IsJsSpace(s[i]) {
      assert s[i] == s[a..][i - a];
    }
    StripEnds(s, a, b, IsJsSpace);
    s[a..b]
  }

  /** A string without whitespace at either end is its own trim. */
  lemma TrimKeepsUnpadded(s: string)
    requires s == [] || (!IsJsSpace(s[0]) && !IsJsSpace(s[|s| - 1]))
    ensures Trim(s) == s
  {
    var a := PrefixRun(s, IsJsSpace);
    assert a == 0;
    assert s[a..] == s;
    var k := SuffixRunStart(s, IsJsSpace);
    assert k == |s|;
  }

  /** JavaScript's reading of a `slice` argument against a string of length
      `len`: a negative index counts from the end, and the result is clamped
      to `0..len`. */
  function SliceIndex(len: nat, k: int): (i: nat)
    ensures i <= len
  {
    if k < 0 then (if len + k < 0 then 0 else len + k) else if k > len then len else k
  }

  /** `s.slice(start, end)`: empty when the clamped start is not before the clamped end. */
  function JsSlice(s: string, start: int, end: int): string {
    var i := SliceIndex(|s|, start);
    var j := SliceIndex(|s|, end);
    if i < j then s[i..j] else []
  }

  /** With in-range arguments `slice` is Dafny's subsequence. */
  lemma SliceInRange(s: string, start: int, end: int)
    requires 0 <= start <= end <= |s|
    ensures JsSlice(s, start, end) == s[start..end]
  {
  }

  /** `s.slice(0, end)` is always a prefix of `s`; for a negative `end` it
      drops `-end` characters from the end of `s`, and an `end` past the
      length is clamped to it. */
  lemma SlicePrefix(s: string, end: int)
    ensures var r := JsSlice(s, 0, end);
      && r == s[..|r|]
      && (end < 0 ==> |r| == if |s| + end < 0 then 0 else |s| + end)
      && (end >= |s| ==> r == s)
  {
  }
}
