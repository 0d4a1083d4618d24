/**
  The handful of Python 2 `unicode` operations the extraction code relies on:
  `strip()` with no argument and with an explicit character set, `split(sep)`,
  and the ASCII character tests used by the regular expressions and by `isdigit`.
*/
module Text {

  /** Python 2's `unicode.isspace` (Unicode 5.2): the characters an argument-less `strip()` removes. */
  predicate IsSpace(c: char) {
    || '\U{9}' <= c <= '\U{D}' || '\U{1C}' <= c <= ' ' || c == '\U{85}' || c == '\U{A0}'
    || c == '\U{1680}' || c == '\U{180E}' || '\U{2000}' <= c <= '\U{200A}'
    || c == '\U{2028}' || c == '\U{2029}' || c == '\U{202F}' || c == '\U{205F}' || c == '\U{3000}'
  }

  /** The argument of `strip`: none (whitespace) or an explicit set of characters. */
  datatype Chars = Spaces | Only(set<char>)

  predicate In(c: char, cs: Chars) {
    match cs
    case Spaces => IsSpace(c)
    case Only(set_) => c in set_
  }

  predicate IsAsciiDigit(c: char) { '0' <= c <= '9' }

  predicate IsAsciiUpper(c: char) { 'A' <= c <= 'Z' }

  predicate IsAsciiLower(c: char) { 'a' <= c <= 'z' }

  predicate IsAsciiLetter(c: char) { IsAsciiUpper(c) || IsAsciiLower(c) }

  /** ASCII lower-casing, the case folding the model uses for case-insensitive matching. */
  function Lower(c: char): (r: char)
    ensures IsAsciiUpper(c) ==> IsAsciiLower(r)
    ensures !IsAsciiUpper(c) ==> r == c
  {
    if IsAsciiUpper(c) then (c as int + 32) as char else c
  }

  /** Python's `isdigit` on a string: non-empty and every character a digit. */
  predicate IsDigitString(s: string) {
    |s| > 0 && forall k :: 0 <= k < |s| ==> IsAsciiDigit(s[k])
  }

  /** Decimal value of a string of ASCII digits (Python's `int`). */
  function DigitsValue(s: string): (n: nat)
    requires forall k :: 0 <= k < |s| ==> IsAsciiDigit(s[k])
    decreases |s|
  {
    if s == [] then 0
    else
      assert IsAsciiDigit(s[|s| - 1]);
      DigitsValue(s[..|s| - 1]) * 10 + (s[|s| - 1] as int - '0' as int)
  }

  // ---------------------------------------------------------------------------
  // strip

  /** End of the run of `cs` characters that starts at `i` (what `lstrip` skips when `i == 0`). */
  function SkipFrom(s: string, cs: Chars, i: nat): (r: nat)
    requires i <= |s|
    ensures i <= r <= |s|
    ensures forall k :: i <= k < r ==> In(s[k], cs)
    ensures r == |s| || !In(s[r], cs)
    decreases |s| - i
  {
    if i < |s| && In(s[i], cs) then SkipFrom(s, cs, i + 1) else i
  }

  /** Start of the run of `cs` characters that ends at `j`, going no further left than `lo` (what `rstrip` drops). */
  function SkipBack(s: string, cs: Chars, lo: nat, j: nat): (r: nat)
    requires lo <= j <= |s|
    ensures lo <= r <= j
    ensures forall k :: r <= k < j ==> In(s[k], cs)
    ensures r == lo || !In(s[r - 1], cs)
    decreases j - lo
  {
    if lo < j && In(s[j - 1], cs) then SkipBack(s, cs, lo, j - 1) else j
  }

  /** Index in `s` at which `Strip(s, cs)` begins. */
  function StripStart(s: string, cs: Chars): nat
    ensures StripStart(s, cs) <= |s|
  {
    SkipFrom(s, cs, 0)
  }

  /** Index in `s` at which `Strip(s, cs)` ends. */
  function StripEnd(s: string, cs: Chars): nat
    ensures StripStart(s, cs) <= StripEnd(s, cs) <= |s|
  {
    SkipBack(s, cs, StripStart(s, cs), |s|)
  }

  /** `s.strip(cs)`: `s.lstrip(cs).rstrip(cs)` (and, with `cs == Spaces`, Python's argument-less `s.strip()`). */
  function Strip(s: string, cs: Chars): (r: string)
    ensures r == [] || (!In(r[0], cs) && !In(r[|r| - 1], cs))
  {
    s[StripStart(s, cs)..StripEnd(s, cs)]
  }

  /** `s.strip()` with no argument. */
  function StripSpace(s: string): (r: string)
    ensures r == [] || (!IsSpace(r[0]) && !IsSpace(r[|r| - 1]))
  {
    Strip(s, Spaces)
  }

  /**
    `t` is `s[a..a + |t|]`, everything before and after it in `s` is in `cs`, and neither end of
    `t` is: the meaning of "`s` stripped of `cs`".
  */
  predicate IsStripOf(t: string, s: string, cs: Chars, a: nat) {
    && a + |t| <= |s|
    && t == s[a..a + |t|]
    && (forall k :: 0 <= k < a ==> In(s[k], cs))
    && (forall k :: a + |t| <= k < |s| ==> In(s[k], cs))
    && (t == [] || (!In(t[0], cs) && !In(t[|t| - 1], cs)))
  }

  /** `Strip` removes what the characterisation says it removes. */
  lemma StripIsStripOf(s: string, cs: Chars)
    ensures IsStripOf(Strip(s, cs), s, cs, StripStart(s, cs))
  {
    var a := StripStart(s, cs);
    var e := StripEnd(s, cs);
    if a == e {
      assert forall k :: a <= k < |s| ==> In(s[k], cs);
    }
  }

  /** Two ways of cutting `s` as `IsStripOf` describes start at the same place and have the same length. */
  lemma StripCutsAgree(t: string, r: string, s: string, cs: Chars, a: nat, b: nat)
    requires IsStripOf(t, s, cs, a) && IsStripOf(r, s, cs, b)
    ensures |t| == |r| && (t != [] ==> a == b)
  {
    if t != [] {
      assert t[0] == s[a] && t[|t| - 1] == s[a + |t| - 1];
    }
    if r != [] {
      assert r[0] == s[b] && r[|r| - 1] == s[b + |r| - 1];
    }
  }

  /** Any such `t` is the one `Strip` returns: the characterisation determines the result. */
  lemma StripUnique(t: string, s: string, cs: Chars, a: nat)
    requires IsStripOf(t, s, cs, a)
    ensures t == Strip(s, cs)
  {
    StripIsStripOf(s, cs);
    StripCutsAgree(t, Strip(s, cs), s, cs, a, StripStart(s, cs));
  }

  /** Stripping twice strips nothing more. */
  lemma StripIdempotent(s: string, cs: Chars)
    ensures Strip(Strip(s, cs), cs) == Strip(s, cs)
  {
    var r := Strip(s, cs);
    assert IsStripOf(r, r, cs, 0) by {
      assert r[0..|r|] == r;
    }
    StripUnique(r, r, cs, 0);
  }

  /** Text with no whitespace at either end is its own `strip()`. */
  lemma StripNothing(t: string)
    requires |t| > 0 && !IsSpace(t[0]) && !IsSpace(t[|t| - 1])
    ensures StripSpace(t) == t
  {
    StripUnique(t, t, Spaces, 0);
  }

  /** `strip()` removes a single leading space. */
  lemma StripOneSpace(t: string)
    requires |t| > 0 && !IsSpace(t[0]) && !IsSpace(t[|t| - 1])
    ensures StripSpace(" " + t) == t
  {
    StripUnique(t, " " + t, Spaces, 1);
  }

  /**
    Stripping a slice `s[lo..hi]` keeps any `s[i..j]` inside it whose ends are not stripped: the
    result is the slice `s[lo + a..lo + a + |r|]` around it.
  */
  lemma StripSliceKeeps(s: string, lo: nat, hi: nat, i: nat, j: nat, cs: Chars)
    requires lo <= i < j <= hi <= |s|
    requires !In(s[i], cs) && !In(s[j - 1], cs)
    ensures var t := s[lo..hi]; var a := StripStart(t, cs); var r := Strip(t, cs);
      && lo + a <= i && j <= lo + a + |r| && r == s[lo + a..lo + a + |r|]
  {
    var t := s[lo..hi];
    assert !In(t[i - lo], cs) && !In(t[j - 1 - lo], cs) by {
      assert t[i - lo] == s[i] && t[j - 1 - lo] == s[j - 1];
    }
    var a := StripStart(t, cs);
    var e := StripEnd(t, cs);
    assert a <= i - lo && j - lo <= e;
    assert Strip(t, cs) == t[a..e];
    SliceOfSlice(s, lo, hi, a, e);
  }

  /** A slice of a slice is a slice of the whole. */
  lemma SliceOfSlice(s: string, lo: nat, hi: nat, a: nat, e: nat)
    requires lo <= hi <= |s| && a <= e <= hi - lo
    ensures s[lo..hi][a..e] == s[lo + a..lo + e]
  {
    assert forall k :: 0 <= k < e - a ==> s[lo..hi][a..e][k] == s[lo + a + k];
  }

  // ---------------------------------------------------------------------------
  // split

  predicate OccursAt(s: string, sep: string, i: nat) {
    i + |sep| <= |s| && s[i..i + |sep|] == sep
  }

  predicate Contains(s: string, sep: string) {
    exists i: nat | i <= |s| :: OccursAt(s, sep, i)
  }

  /** First index `>= i` at which `sep` occurs in `s`, or `|s|` when there is none. */
  function IndexOf(s: string, sep: string, i: nat): (r: nat)
    requires |sep| > 0 && i <= |s|
    ensures i <= r <= |s|
    ensures r < |s| ==> OccursAt(s, sep, r)
    ensures forall k: nat :: i <= k < r ==> !OccursAt(s, sep, k)
    ensures r == |s| ==> forall k: nat :: i <= k ==> !OccursAt(s, sep, k)
    decreases |s| - i
  {
    if i + |sep| > |s| then |s|
    else if s[i..i + |sep|] == sep then i
    else IndexOf(s, sep, i + 1)
  }

  /** Inverse of `Split`: the parts put back together with the separator between them. */
  function Join(parts: seq<string>, sep: string): string
    requires |parts| >= 1
    decreases |parts|
  {
    if |parts| == 1 then parts[0] else parts[0] + sep + Join(parts[1..], sep)
  }

  /** No occurrence of `sep` in a prefix of `s` that ends before the first occurrence in `s`. */
  lemma NoOccurrenceInPrefix(s: string, sep: string, i: nat)
    requires |sep| > 0 && i <= |s|
    requires forall k: nat :: k < i ==> !OccursAt(s, sep, k)
    ensures !Contains(s[..i], sep)
  {
    if Contains(s[..i], sep) {
      var k: nat :| k <= i && OccursAt(s[..i], sep, k);
      assert s[..i][k..k + |sep|] == s[k..k + |sep|];
      assert OccursAt(s, sep, k);
    }
  }

  /** Python's `s.split(sep)` for a non-empty separator. */
  function Split(s: string, sep: string): (parts: seq<string>)
    requires |sep| > 0
    ensures |parts| >= 1
    ensures Join(parts, sep) == s
    ensures forall k :: 0 <= k < |parts| ==> !Contains(parts[k], sep)
    decreases |s|
  {
    var i := IndexOf(s, sep, 0);
    if i == |s| then
      assert s[..|s|] == s;
      NoOccurrenceInPrefix(s, sep, |s|);
      [s]
    else
      var rest := Split(s[i + |sep|..], sep);
      assert s == s[..i] + sep + s[i + |sep|..] by {
        assert s[i..i + |sep|] == sep;
      }
      NoOccurrenceInPrefix(s, sep, i);
      [s[..i]] + rest
  }

  /** The first part of a split is the text before the first separator. */
  lemma SplitHead(s: string, sep: string)
    requires |sep| > 0
    ensures var i := IndexOf(s, sep, 0); Split(s, sep)[0] == s[..i]
  {
    var i := IndexOf(s, sep, 0);
    if i == |s| { assert s[..|s|] == s; }
  }

  /** One step of `Split`: no separator leaves the text whole, otherwise the text before the first one comes off. */
  lemma SplitStep(s: string, sep: string)
    requires |sep| > 0
    ensures var first := IndexOf(s, sep, 0);
      && (first == |s| ==> Split(s, sep) == [s])
      && (first < |s| ==> Split(s, sep) == [s[..first]] + Split(s[first + |sep|..], sep))
  {
  }

  /**
    The second part of the split exists exactly when there is a separator, and it is the text
    after the first separator up to the next one (or to the end).
  */
  lemma SplitSecond(s: string, sep: string)
    requires |sep| > 0
    ensures var first := IndexOf(s, sep, 0);
      && (|Split(s, sep)| >= 2 <==> first < |s|)
      && (first < |s| ==>
            var rest := s[first + |sep|..];
            Split(s, sep)[1] == rest[..IndexOf(rest, sep, 0)])
  {
    var first := IndexOf(s, sep, 0);
    SplitStep(s, sep);
    if first < |s| {
      SplitHead(s[first + |sep|..], sep);
    }
  }
}
