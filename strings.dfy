/**
  The handful of Python string operations the dashboard relies on:
  `str.isspace`/`str.strip`, `str.upper`, the `in` substring test and
  `str.split(sep)` with a non-empty separator.
 */
module Strings {

  import opened Wrappers

  /** Python's `str.isspace()` for a single character (the Unicode White_Space set Python uses). */
  predicate IsSpace(c: char) {
    c == ' ' || ('\t' <= c <= '\r') || ('\U{1C}' <= c <= '\U{1F}')
    || c == '\U{85}' || c == '\U{A0}' || c == '\U{1680}'
    || ('\U{2000}' <= c <= '\U{200A}') || c == '\U{2028}' || c == '\U{2029}'
    || c == '\U{202F}' || c == '\U{205F}' || c == '\U{3000}'
  }

  predicate IsDigit(c: char) { '0' <= c <= '9' }

  predicate IsLower(c: char) { 'a' <= c <= 'z' }

  // ---------------------------------------------------------------------------
  // strip

  /** Drops the leading whitespace. */
  function TrimLeft(s: string): (r: string)
    ensures |r| <= |s| && r == s[|s| - |r|..]
    ensures forall k :: 0 <= k < |s| - |r| ==> IsSpace(s[k])
    ensures r == [] || !IsSpace(r[0])
  {
    if s != [] && IsSpace(s[0]) then TrimLeft(s[1..]) else s
  }

  /** Drops the trailing whitespace. */
  function TrimRight(s: string): (r: string)
    ensures |r| <= |s| && r == s[..|r|]
    ensures forall k :: |r| <= k < |s| ==> IsSpace(s[k])
    ensures r == [] || !IsSpace(r[|r| - 1])
  {
    if s != [] && IsSpace(s[|s| - 1]) then TrimRight(s[..|s| - 1]) else s
  }

  /** Python's `s.strip()`: `s` is whitespace, then the result, then whitespace,
      and the result neither starts nor ends with whitespace. */
  function Strip(s: string): (r: string)
    ensures var i := |s| - |TrimLeft(s)|;
      i + |r| <= |s| && r == s[i..i + |r|]
      && (forall k :: 0 <= k < i ==> IsSpace(s[k]))
      && (forall k :: i + |r| <= k < |s| ==> IsSpace(s[k]))
    ensures r == [] || (!IsSpace(r[0]) && !IsSpace(r[|r| - 1]))
  {
    TrimRight(TrimLeft(s))
  }

  predicate AllSpace(s: string) { forall k :: 0 <= k < |s| ==> IsSpace(s[k]) }

  /** Strip is determined by its contract: whitespace around a core that has
      no whitespace at either end is exactly what it removes. */
  lemma {:induction false} StripPadded(u: string, t: string, v: string)
    requires AllSpace(u) && AllSpace(v)
    requires t == [] || (!IsSpace(t[0]) && !IsSpace(t[|t| - 1]))
    ensures Strip(u + t + v) == t
  {
    if t == [] {
      var w := u + t + v;
      assert AllSpace(w);
    } else {
      TrimLeftPadded(u, t + v);
      assert TrimLeft(u + t + v) == t + v by { assert u + t + v == u + (t + v); }
      TrimRightPadded(t, v);
    }
  }

  /** A text with no whitespace at either end is its own strip. */
  lemma StripUnpadded(t: string)
    requires t == [] || (!IsSpace(t[0]) && !IsSpace(t[|t| - 1]))
    ensures Strip(t) == t
  {
    StripPadded([], t, []);
    assert [] + t + [] == t;
  }

  lemma {:induction false} TrimLeftPadded(u: string, w: string)
    requires AllSpace(u)
    requires w == [] || !IsSpace(w[0])
    ensures TrimLeft(u + w) == w
  {
    if u != [] {
      assert (u + w)[1..] == u[1..] + w;
      TrimLeftPadded(u[1..], w);
    }
  }

  lemma {:induction false} TrimRightPadded(t: string, v: string)
    requires AllSpace(v)
    requires t == [] || !IsSpace(t[|t| - 1])
    ensures TrimRight(t + v) == t
  {
    if v != [] {
      assert (t + v)[..|t + v| - 1] == t + v[..|v| - 1];
      TrimRightPadded(t, v[..|v| - 1]);
    } else {
      assert t + v == t;
    }
  }

  lemma StripIdempotent(s: string)
    ensures Strip(Strip(s)) == Strip(s)
  {
    var t := Strip(s);
    StripPadded([], t, []);
    assert [] + t + [] == t;
  }

  // ---------------------------------------------------------------------------
  // upper

  /** Upper-case of one character, for the ASCII letters. */
  function UpperChar(c: char): (r: char)
    ensures IsLower(c) ==> r as int == c as int - 32
    ensures !IsLower(c) ==> r == c
  {
    if IsLower(c) then (c as int - 32) as char else c
  }

  /** Raising a letter neither makes nor removes whitespace. */
  lemma UpperCharSpace(c: char)
    ensures IsSpace(UpperChar(c)) <==> IsSpace(c)
  {
  }

  /** `s.upper()` restricted to ASCII letters: same length, each letter raised, nothing else touched. */
  function Upper(s: string): (r: string)
    ensures |r| == |s|
    ensures forall k :: 0 <= k < |s| ==> r[k] == UpperChar(s[k])
    ensures forall k :: 0 <= k < |r| ==> !IsLower(r[k])
  {
    seq(|s|, k requires 0 <= k < |s| => UpperChar(s[k]))
  }

  /** A non-whitespace character survives `strip` at its place past the
      leading whitespace. */
  lemma StripKeeps(s: string, j: nat)
    requires j < |s| && !IsSpace(s[j])
    ensures var i := |s| - |TrimLeft(s)|;
      i <= j < i + |Strip(s)| && Strip(s)[j - i] == s[j]
  {
  }

  lemma UpperIdempotent(s: string)
    ensures Upper(Upper(s)) == Upper(s)
  {
  }

  lemma {:induction false} UpperTrimLeft(s: string)
    ensures Upper(TrimLeft(s)) == TrimLeft(Upper(s))
  {
    if s != [] && IsSpace(s[0]) {
      assert Upper(s)[1..] == Upper(s[1..]);
      UpperTrimLeft(s[1..]);
    } else if s != [] {
      assert !IsSpace(Upper(s)[0]);
    }
  }

  lemma {:induction false} UpperTrimRight(s: string)
    ensures Upper(TrimRight(s)) == TrimRight(Upper(s))
  {
    if s != [] && IsSpace(s[|s| - 1]) {
      assert Upper(s)[..|s| - 1] == Upper(s[..|s| - 1]);
      UpperTrimRight(s[..|s| - 1]);
    } else if s != [] {
      assert !IsSpace(Upper(s)[|s| - 1]);
    }
  }

  /** Upper-casing never creates or removes whitespace, so it commutes with strip. */
  lemma UpperStrip(s: string)
    ensures Upper(Strip(s)) == Strip(Upper(s))
  {
    UpperTrimLeft(s);
    UpperTrimRight(TrimLeft(s));
  }

  /** The `.strip().upper()` normalisation is idempotent. */
  lemma NormalizeIdempotent(s: string)
    ensures Upper(Strip(Upper(Strip(s)))) == Upper(Strip(s))
  {
    UpperStrip(Strip(s));
    StripIdempotent(s);
    UpperIdempotent(Strip(s));
  }

  // ---------------------------------------------------------------------------
  // substring search and split

  predicate MatchAt(s: string, pat: string, k: int) {
    0 <= k && k + |pat| <= |s| && s[k..k + |pat|] == pat
  }

  function IndexFrom(s: string, pat: string, from: nat): (r: Option<nat>)
    requires from <= |s|
    ensures r.Some? ==> from <= r.value && MatchAt(s, pat, r.value)
    ensures r.Some? ==> forall k :: from <= k < r.value ==> !MatchAt(s, pat, k)
    ensures r.None? ==> forall k :: from <= k <= |s| ==> !MatchAt(s, pat, k)
    decreases |s| - from
  {
    if MatchAt(s, pat, from) then Some(from)
    else if from == |s| then None
    else IndexFrom(s, pat, from + 1)
  }

  /** Python's `s.find(pat)`: the first position where `pat` occurs, if any. */
  function IndexOf(s: string, pat: string): (r: Option<nat>)
    ensures r.Some? ==> MatchAt(s, pat, r.value)
    ensures r.Some? ==> forall k :: 0 <= k < r.value ==> !MatchAt(s, pat, k)
    ensures r.None? ==> forall k :: 0 <= k <= |s| ==> !MatchAt(s, pat, k)
  {
    IndexFrom(s, pat, 0)
  }

  /** A match begins with the pattern's first character. */
  lemma MatchHead(s: string, pat: string, k: int)
    requires MatchAt(s, pat, k) && |pat| > 0
    ensures s[k] == pat[0]
  {
    assert s[k..k + |pat|][0] == s[k];
  }

  /** A two-character pattern matches where those characters are, in order. */
  lemma MatchAtPair(s: string, a: char, b: char, k: nat)
    ensures MatchAt(s, [a, b], k) <==> k + 1 < |s| && s[k] == a && s[k + 1] == b
  {
    if k + 1 < |s| {
      assert s[k..k + 2] == [s[k], s[k + 1]];
    }
  }

  /** A one-character pattern matches where that character is. */
  lemma MatchAtChar(s: string, c: char, k: nat)
    ensures MatchAt(s, [c], k) <==> k < |s| && s[k] == c
  {
    if k < |s| {
      assert s[k..k + 1] == [s[k]];
    }
  }

  /** The first occurrence of a character is where it first appears. */
  lemma FirstChar(s: string, c: char, i: nat)
    requires i < |s| && s[i] == c && c !in s[..i]
    ensures IndexOf(s, [c]) == Some(i)
  {
    MatchAtChar(s, c, i);
    forall k | 0 <= k < i ensures !MatchAt(s, [c], k) {
      MatchAtChar(s, c, k);
      assert s[k] == s[..i][k];
    }
  }

  /** A character that does not appear is not found. */
  lemma NoChar(s: string, c: char)
    requires c !in s
    ensures IndexOf(s, [c]) == None
  {
    if IndexOf(s, [c]).Some? {
      MatchAtChar(s, c, IndexOf(s, [c]).value);
    }
  }

  /** Python's `pat in s`. */
  predicate Contains(s: string, pat: string) {
    IndexOf(s, pat).Some?
  }

  lemma ContainsAt(s: string, pat: string, k: int)
    requires MatchAt(s, pat, k)
    ensures Contains(s, pat)
  {
  }

  /** Python's `s.split(sep)` for a non-empty separator: the pieces between
      successive left-to-right occurrences of `sep`. */
  function Split(s: string, sep: string): (parts: seq<string>)
    requires |sep| > 0
    ensures |parts| >= 1
    ensures IndexOf(s, sep).None? ==> parts == [s]
    ensures IndexOf(s, sep).Some? ==> |parts| >= 2 && parts[0] == s[..IndexOf(s, sep).value]
    decreases |s|
  {
    match IndexOf(s, sep)
    case None => [s]
    case Some(i) => [s[..i]] + Split(s[i + |sep|..], sep)
  }

  /** Python's `sep.join(parts)`. */
  function Join(parts: seq<string>, sep: string): string
    requires |parts| >= 1
  {
    if |parts| == 1 then parts[0] else parts[0] + sep + Join(parts[1..], sep)
  }

  /** Splitting and joining again gives back the original string. */
  lemma {:induction false} JoinSplit(s: string, sep: string)
    requires |sep| > 0
    ensures Join(Split(s, sep), sep) == s
    decreases |s|
  {
    match IndexOf(s, sep)
    case None =>
    case Some(i) =>
      var rest := s[i + |sep|..];
      JoinSplit(rest, sep);
      assert Split(s, sep)[1..] == Split(rest, sep);
      assert s == s[..i] + sep + rest by { assert s[i..i + |sep|] == sep; }
  }

  /** Text before the first occurrence of `pat` does not contain `pat`. */
  lemma PrefixAvoids(s: string, pat: string, i: nat)
    requires |pat| > 0 && i <= |s|
    requires forall k :: 0 <= k < i ==> !MatchAt(s, pat, k)
    ensures !Contains(s[..i], pat)
  {
    var head := s[..i];
    if Contains(head, pat) {
      var k := IndexOf(head, pat).value;
      assert head[k..k + |pat|] == s[k..k + |pat|];
      assert MatchAt(s, pat, k);
    }
  }

  /** No piece of a split contains the separator. */
  lemma {:induction false} SplitPiecesAvoidSep(s: string, sep: string)
    requires |sep| > 0
    ensures forall j :: 0 <= j < |Split(s, sep)| ==> !Contains(Split(s, sep)[j], sep)
    decreases |s|
  {
    match IndexOf(s, sep)
    case None =>
      assert Split(s, sep) == [s];
    case Some(i) =>
      var rest := s[i + |sep|..];
      var parts := Split(s, sep);
      SplitPiecesAvoidSep(rest, sep);
      PrefixAvoids(s, sep, i);
      assert parts == [s[..i]] + Split(rest, sep);
      forall j | 0 <= j < |parts| ensures !Contains(parts[j], sep) {
        if j > 0 {
          assert parts[j] == Split(rest, sep)[j - 1];
        }
      }
  }

  /** The first piece of `s.split(sep)`: everything before the first `sep`, or all of `s`. */
  function BeforeFirst(s: string, sep: string): (r: string)
    requires |sep| > 0
    ensures IndexOf(s, sep).None? ==> r == s
    ensures IndexOf(s, sep).Some? ==> r == s[..IndexOf(s, sep).value]
    ensures !Contains(r, sep)
  {
    SplitPiecesAvoidSep(s, sep);
    Split(s, sep)[0]
  }
}
