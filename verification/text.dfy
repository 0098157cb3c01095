/**
 * The JavaScript string operations the editor relies on: trim, toLowerCase,
 * includes/indexOf, split and join, startsWith, and decimal number text.
 * Strings are sequences of characters.
 */
module Text {
  import opened Wrappers

  // ---------------------------------------------------------------------------
  // Whitespace and trim
  // ---------------------------------------------------------------------------

  /** The characters String.prototype.trim removes: WhiteSpace and LineTerminator. */
  predicate IsWhitespace(c: char) {
    || c == '\t' || c == '\n' || c == '\U{000B}' || c == '\U{000C}' || c == '\r'
    || c == ' ' || c == '\U{00A0}' || c == '\U{1680}'
    || ('\U{2000}' <= c <= '\U{200A}')
    || c == '\U{2028}' || c == '\U{2029}' || c == '\U{202F}' || c == '\U{205F}'
    || c == '\U{3000}' || c == '\U{FEFF}'
  }

  predicate AllWhitespace(s: string) {
    forall i :: 0 <= i < |s| ==> IsWhitespace(s[i])
  }

  /** The first index at or after `i` holding a non-whitespace character, or |s|. */
  function SkipWhitespace(s: string, i: nat): (k: nat)
    requires i <= |s|
    ensures i <= k <= |s|
    ensures forall j :: i <= j < k ==> IsWhitespace(s[j])
    ensures k < |s| ==> !IsWhitespace(s[k])
    decreases |s| - i
  {
    if i == |s| || !IsWhitespace(s[i]) then i else SkipWhitespace(s, i + 1)
  }

  /** The end of the content in s[lo..hi]: the least k with only whitespace in s[k..hi]. */
  function SkipWhitespaceBack(s: string, lo: nat, hi: nat): (k: nat)
    requires lo <= hi <= |s|
    ensures lo <= k <= hi
    ensures forall j :: k <= j < hi ==> IsWhitespace(s[j])
    ensures k > lo ==> !IsWhitespace(s[k - 1])
    decreases hi
  {
    if hi == lo || !IsWhitespace(s[hi - 1]) then hi else SkipWhitespaceBack(s, lo, hi - 1)
  }

  /** `r` sits at offset `k` of `s`, with only whitespace on either side. */
  predicate IsTrimmedAt(s: string, r: string, k: nat) {
    && k + |r| <= |s|
    && (forall i :: 0 <= i < |r| ==> s[k + i] == r[i])
    && (forall i :: 0 <= i < k ==> IsWhitespace(s[i]))
    && (forall i :: k + |r| <= i < |s| ==> IsWhitespace(s[i]))
  }

  /** String.prototype.trim: drop leading and trailing whitespace. */
  function Trim(s: string): (r: string)
    ensures IsTrimmedAt(s, r, SkipWhitespace(s, 0))
    ensures r != [] ==> !IsWhitespace(r[0]) && !IsWhitespace(r[|r| - 1])
    ensures r == [] <==> AllWhitespace(s)
  {
    var a := SkipWhitespace(s, 0);
    var b := SkipWhitespaceBack(s, a, |s|);
    s[a..b]
  }

  /** True iff the string is empty after trimming (JavaScript `!s.trim()`). */
  predicate IsBlank(s: string) {
    Trim(s) == []
  }

  lemma {:induction false} SkipWhitespaceStopsAt(s: string, i: nat, k: nat)
    requires i <= k <= |s|
    requires forall j :: i <= j < k ==> IsWhitespace(s[j])
    requires k < |s| ==> !IsWhitespace(s[k])
    ensures SkipWhitespace(s, i) == k
    decreases k - i
  {
    if i < k {
      SkipWhitespaceStopsAt(s, i + 1, k);
    }
  }

  lemma {:induction false} SkipWhitespaceBackStopsAt(s: string, lo: nat, hi: nat, k: nat)
    requires lo <= k <= hi <= |s|
    requires forall j :: k <= j < hi ==> IsWhitespace(s[j])
    requires k > lo ==> !IsWhitespace(s[k - 1])
    ensures SkipWhitespaceBack(s, lo, hi) == k
    decreases hi - k
  {
    if k < hi {
      SkipWhitespaceBackStopsAt(s, lo, hi - 1, k);
    }
  }

  /** Trim recovers a string from any whitespace padding around it. */
  lemma TrimOfPadded(left: string, t: string, right: string)
    requires AllWhitespace(left) && AllWhitespace(right)
    requires t != [] ==> !IsWhitespace(t[0]) && !IsWhitespace(t[|t| - 1])
    ensures Trim(left + t + right) == t
  {
    var s := left + t + right;
    var a := |left|;
    var b := |left| + |t|;
    forall j | 0 <= j < a ensures IsWhitespace(s[j]) {
      assert s[j] == left[j];
    }
    forall j | b <= j < |s| ensures IsWhitespace(s[j]) {
      assert s[j] == right[j - b];
    }
    if t == [] {
      SkipWhitespaceStopsAt(s, 0, |s|);
      SkipWhitespaceBackStopsAt(s, |s|, |s|, |s|);
      assert Trim(s) == s[|s|..|s|];
    } else {
      assert s[a] == t[0];
      assert s[b - 1] == t[|t| - 1];
      SkipWhitespaceStopsAt(s, 0, a);
      SkipWhitespaceBackStopsAt(s, a, |s|, b);
      assert s[a..b] == t;
    }
  }

  /** Text that starts with a visible character keeps its start when trimmed. */
  lemma TrimFromStart(s: string)
    requires s != [] && !IsWhitespace(s[0])
    ensures |Trim(s)| <= |s| && Trim(s) == s[..|Trim(s)|]
  {
    assert SkipWhitespace(s, 0) == 0;
  }

  /** Trimming keeps every visible character: the trimmed text reaches past each one. */
  lemma TrimReaches(s: string, q: nat)
    requires q < |s| && !IsWhitespace(s[q])
    ensures q < SkipWhitespace(s, 0) + |Trim(s)|
  {
  }

  /**
   * Trimming a text that starts with a visible head keeps the head, and keeps
   * the visible content of what follows it.
   */
  lemma TrimKeepsHead(h: string, x: string, tail: string)
    requires h != [] && !IsWhitespace(h[0]) && !IsBlank(x)
    ensures var t := Trim(h + x + tail);
            |h| < |t| && t[..|h|] == h && !IsBlank(t[|h|..])
  {
    var p := h + x + tail;
    var t := Trim(p);
    var q :| 0 <= q < |x| && !IsWhitespace(x[q]);
    assert p[0] == h[0] && p[|h| + q] == x[q];
    TrimFromStart(p);
    TrimReaches(p, |h| + q);
    assert t[..|h|] == h by {
      assert t[..|h|] == p[..|h|];
    }
    assert t[|h|..][q] == x[q];
  }

  /** A string is what lies before index `i`, the character there, and what follows. */
  lemma AroundIndex(s: string, i: nat)
    requires i < |s|
    ensures s == s[..i] + [s[i]] + s[i + 1..]
  {
  }

  /** Trimming twice is trimming once. */
  lemma TrimIdempotent(s: string)
    ensures Trim(Trim(s)) == Trim(s)
  {
    var t := Trim(s);
    if t != [] {
      SkipWhitespaceStopsAt(t, 0, 0);
      SkipWhitespaceBackStopsAt(t, 0, |t|, |t|);
      assert t[0..|t|] == t;
    }
  }

  // ---------------------------------------------------------------------------
  // Case mapping
  // ---------------------------------------------------------------------------

  function LowerChar(c: char): char {
    if 'A' <= c <= 'Z' then (c as int + 32) as char else c
  }

  /** String.prototype.toLowerCase, restricted to the ASCII letters. */
  function ToLower(s: string): (r: string)
    ensures |r| == |s|
    ensures forall i :: 0 <= i < |s| ==> r[i] == LowerChar(s[i])
  {
    seq(|s|, i requires 0 <= i < |s| => LowerChar(s[i]))
  }

  lemma ToLowerIdempotent(s: string)
    ensures ToLower(ToLower(s)) == ToLower(s)
  {
  }

  // ---------------------------------------------------------------------------
  // Searching
  // ---------------------------------------------------------------------------

  predicate OccursAt(s: string, pat: string, i: nat) {
    i + |pat| <= |s| && forall k :: 0 <= k < |pat| ==> s[i + k] == pat[k]
  }

  /** The first index at or after `from` where `pat` occurs (String.prototype.indexOf). */
  function FindFrom(s: string, pat: string, from: nat): (r: Option<nat>)
    ensures r.Some? ==> from <= r.value && OccursAt(s, pat, r.value)
    ensures r.Some? ==> forall j :: from <= j < r.value ==> !OccursAt(s, pat, j)
    ensures r.None? ==> forall j :: from <= j ==> !OccursAt(s, pat, j)
    decreases |s| - from
  {
    if from + |pat| > |s| then None
    else if OccursAt(s, pat, from) then Some(from)
    else FindFrom(s, pat, from + 1)
  }

  /** String.prototype.includes. */
  predicate Contains(s: string, pat: string) {
    FindFrom(s, pat, 0).Some?
  }

  lemma ContainsMeansOccurs(s: string, pat: string)
    ensures Contains(s, pat) <==> exists i :: OccursAt(s, pat, i)
  {
  }

  predicate StartsWith(s: string, prefix: string) {
    |prefix| <= |s| && s[..|prefix|] == prefix
  }

  // ---------------------------------------------------------------------------
  // Split and join
  // ---------------------------------------------------------------------------

  /** Array.prototype.join. */
  function Join(parts: seq<string>, sep: string): string
    decreases |parts|
  {
    if parts == [] then []
    else if |parts| == 1 then parts[0]
    else parts[0] + sep + Join(parts[1..], sep)
  }

  /** String.prototype.split with a non-empty separator string. */
  function Split(s: string, sep: string): (parts: seq<string>)
    requires sep != []
    ensures |parts| >= 1
    decreases |s|
  {
    match FindFrom(s, sep, 0)
    case None => [s]
    case Some(i) => [s[..i]] + Split(s[i + |sep|..], sep)
  }

  /** No part of a split contains the separator. */
  lemma {:induction false} SplitPartsFree(s: string, sep: string)
    requires sep != []
    ensures forall i :: 0 <= i < |Split(s, sep)| ==> !Contains(Split(s, sep)[i], sep)
    decreases |s|
  {
    match FindFrom(s, sep, 0)
    case None =>
    case Some(i) =>
      BeforeFirstIsFree(s, sep, i);
      SplitPartsFree(s[i + |sep|..], sep);
  }

  /** The text before the first occurrence of `sep` does not contain it. */
  lemma BeforeFirstIsFree(s: string, sep: string, i: nat)
    requires sep != []
    requires FindFrom(s, sep, 0) == Some(i)
    ensures !Contains(s[..i], sep)
  {
    var head := s[..i];
    forall j: nat ensures !OccursAt(head, sep, j) {
      if j + |sep| <= |head| {
        assert !OccursAt(s, sep, j);
        var k :| 0 <= k < |sep| && s[j + k] != sep[k];
        assert head[j + k] != sep[k];
      }
    }
  }

  lemma JoinCons(p: string, rest: seq<string>, sep: string)
    requires rest != []
    ensures Join([p] + rest, sep) == p + sep + Join(rest, sep)
  {
    assert ([p] + rest)[1..] == rest;
  }

  /** Splitting loses nothing: joining the parts back gives the original string. */
  lemma {:induction false} JoinSplit(s: string, sep: string)
    requires sep != []
    ensures Join(Split(s, sep), sep) == s
    decreases |s|
  {
    match FindFrom(s, sep, 0)
    case None =>
    case Some(i) =>
      JoinSplit(s[i + |sep|..], sep);
      JoinSplitStep(s, sep, i);
  }

  lemma JoinSplitStep(s: string, sep: string, i: nat)
    requires sep != []
    requires FindFrom(s, sep, 0) == Some(i)
    requires Join(Split(s[i + |sep|..], sep), sep) == s[i + |sep|..]
    ensures Join(Split(s, sep), sep) == s
  {
    var tail := s[i + |sep|..];
    SplitAtFind(s, sep, i);
    JoinCons(s[..i], Split(tail, sep), sep);
    assert OccursAt(s, sep, i);
    AroundSlice(s, i, i + |sep|);
  }

  lemma SplitAtFind(s: string, sep: string, i: nat)
    requires sep != []
    requires FindFrom(s, sep, 0) == Some(i)
    ensures Split(s, sep) == [s[..i]] + Split(s[i + |sep|..], sep)
  {
  }

  lemma AroundSlice(s: string, i: nat, j: nat)
    requires i <= j <= |s|
    ensures s == s[..i] + s[i..j] + s[j..]
  {
  }

  /** With a one-character separator, joining then splitting gives the parts back. */
  lemma {:induction false} SplitJoin(parts: seq<string>, c: char)
    requires |parts| >= 1
    requires forall i :: 0 <= i < |parts| ==> c !in parts[i]
    ensures Split(Join(parts, [c]), [c]) == parts
    decreases |parts|
  {
    if |parts| == 1 {
      NoCharNoFind(parts[0], c);
    } else {
      SplitJoin(parts[1..], c);
      SplitAtChar(parts[0], c, Join(parts[1..], [c]));
      assert parts == [parts[0]] + parts[1..];
    }
  }

  /** A separator character after a stretch free of it ends the first piece. */
  lemma SplitAtChar(p: string, c: char, rest: string)
    requires c !in p
    ensures Split(p + [c] + rest, [c]) == [p] + Split(rest, [c])
  {
    var s := p + [c] + rest;
    FirstCharAt(p, c, rest);
    assert s[..|p|] == p;
    assert s[|p| + 1..] == rest;
  }

  lemma FirstCharAt(p: string, c: char, rest: string)
    requires c !in p
    ensures FindFrom(p + [c] + rest, [c], 0) == Some(|p|)
  {
    var s := p + [c] + rest;
    assert OccursAt(s, [c], |p|) by { assert s[|p| + 0] == c; }
    forall j | 0 <= j < |p| ensures !OccursAt(s, [c], j) {
      assert p[j] in p;
      assert s[j + 0] != [c][0];
    }
  }

  lemma NoCharNoFind(s: string, c: char)
    requires c !in s
    ensures FindFrom(s, [c], 0).None?
  {
    forall j: nat | j < |s| ensures !OccursAt(s, [c], j) {
      assert s[j] in s;
      assert s[j + 0] != [c][0];
    }
  }

  // ---------------------------------------------------------------------------
  // Decimal text (Number.prototype.toString for non-negative integers)
  // ---------------------------------------------------------------------------

  predicate IsDigit(c: char) { '0' <= c <= '9' }

  predicate AllDigits(s: string) {
    forall i :: 0 <= i < |s| ==> IsDigit(s[i])
  }

  function DigitChar(d: nat): char
    requires d < 10
  {
    ('0' as int + d) as char
  }

  /** Decimal text of a natural number, without leading zeros. */
  function NatToString(n: nat): (r: string)
    ensures r != [] && AllDigits(r)
    ensures r[0] == '0' ==> n == 0 && r == "0"
    decreases n
  {
    if n < 10 then [DigitChar(n)] else NatToString(n / 10) + [DigitChar(n % 10)]
  }

  /** The value of a string of decimal digits. */
  function DigitsValue(s: string): nat
    requires AllDigits(s)
    decreases |s|
  {
    if s == [] then 0
    else DigitsValue(s[..|s| - 1]) * 10 + (s[|s| - 1] as int - '0' as int)
  }

  /** Decimal text without leading zeros (the only text Number.prototype.toString gives). */
  predicate IsCanonicalDecimal(s: string) {
    s != [] && AllDigits(s) && (s[0] == '0' ==> |s| == 1)
  }

  /** Reading back the decimal text of n gives n. */
  lemma {:induction false} DigitsValueOfNatToString(n: nat)
    ensures IsCanonicalDecimal(NatToString(n))
    ensures DigitsValue(NatToString(n)) == n
    decreases n
  {
    var s := NatToString(n);
    if n >= 10 {
      DigitsValueOfNatToString(n / 10);
      assert s[..|s| - 1] == NatToString(n / 10);
    }
  }

  /** Canonical decimal text is the text of its own value. */
  lemma {:induction false} NatToStringOfDigitsValue(s: string)
    requires IsCanonicalDecimal(s)
    ensures NatToString(DigitsValue(s)) == s
    decreases |s|
  {
    var v := DigitsValue(s);
    if |s| == 1 {
    } else {
      var init := s[..|s| - 1];
      assert init[0] == s[0];
      NatToStringOfDigitsValue(init);
      DigitsValuePositive(init);
      assert v / 10 == DigitsValue(init);
      assert v % 10 == s[|s| - 1] as int - '0' as int;
      assert s == init + [s[|s| - 1]];
    }
  }

  lemma {:induction false} DigitsValuePositive(s: string)
    requires IsCanonicalDecimal(s) && s[0] != '0'
    ensures DigitsValue(s) > 0
    decreases |s|
  {
    if |s| > 1 {
      var init := s[..|s| - 1];
      assert init[0] == s[0];
      DigitsValuePositive(init);
    }
  }
}
