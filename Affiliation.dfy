/**
  `regex_search` (LeadEntry/leadentry.py): the first match of a fixed pattern in a free-text
  affiliation, searched case-insensitively, stripped of surrounding whitespace, or "" when nothing
  matches.

  The three patterns are simple enough to be matched directly instead of through a general regular
  expression engine:
    Department  `[\w ]*Department[\w ]*|[\w ]*Laboratory[A-Z ]*|[\w ]*Cent[er|re][\w ]*|[\w ]*Service[A-Z ]*`
    Company     `[\w ]*Universit[y|aria][\w ]*|[\w \']*Institut[e]?[\w \']*|[\w ]*ETH[\w ]*`
    Email       `\b[A-Z0-9._%+-]+@[A-Z0-9.-]+\.[A-Z]{2,4}`
  Every Department/Company alternative has the shape `lead* KEY opt? tail*`; `[y|aria]` and
  `[er|re]` are single-character classes (so `|` is one of their members). The search tries start
  positions left to right and, at each one, the alternatives in pattern order, with greedy,
  backtracking repetition: that is what `Search` and the `...At` functions compute, and what the
  `...Matches` predicates state declaratively.
*/
module Affiliation {
  import opened Wrappers
  import opened Text

  datatype Mode = Department | Company | Email

  /**
    `\w` under `re.UNICODE`: ASCII letters, digits and `_`, and the Latin-1 characters Python counts
    as alphanumeric. Characters above U+00FF are treated as non-word characters.
  */
  predicate IsWordChar(c: char) {
    || IsAsciiLetter(c) || IsAsciiDigit(c) || c == '_'
    || c == '\U{AA}' || c == '\U{B2}' || c == '\U{B3}' || c == '\U{B5}' || c == '\U{B9}' || c == '\U{BA}'
    || ('\U{BC}' <= c <= '\U{BE}')
    || ('\U{C0}' <= c <= '\U{FF}' && c != '\U{D7}' && c != '\U{F7}')
  }

  /** The repeated character classes of the three patterns (under `re.IGNORECASE`). */
  datatype CharClass =
    | WordSpace       // [\w ]
    | WordSpaceQuote  // [\w \']
    | LetterSpace     // [A-Z ]
    | Letter          // [A-Z]
    | Local           // [A-Z0-9._%+-]
    | Domain          // [A-Z0-9.-]

  predicate InClass(c: char, k: CharClass) {
    match k
    case WordSpace => IsWordChar(c) || c == ' '
    case WordSpaceQuote => IsWordChar(c) || c == ' ' || c == '\''
    case LetterSpace => IsAsciiLetter(c) || c == ' '
    case Letter => IsAsciiLetter(c)
    case Local => IsAsciiLetter(c) || IsAsciiDigit(c) || c == '.' || c == '_' || c == '%' || c == '+' || c == '-'
    case Domain => IsAsciiLetter(c) || IsAsciiDigit(c) || c == '.' || c == '-'
  }

  /** Every character of `s[i..j]` is in class `k`. */
  predicate AllClass(s: string, i: nat, j: nat, k: CharClass) {
    i <= j <= |s| && forall m :: i <= m < j ==> InClass(s[m], k)
  }

  /**
    One alternative `lead* word cls? opt? tail*`, matched case-insensitively: `word` is the
    lower-cased literal part of the keyword, `cls` the lower-cased members of the single-character
    class that ends it (`{}` when the keyword is a plain word), and `opt` those of the optional
    atom that may follow it (`{}` when there is none).
  */
  datatype Alt = Alt(lead: CharClass, word: string, cls: set<char>, opt: set<char>, tail: CharClass)

  function DepartmentAlts(): seq<Alt> {
    [ Alt(WordSpace, "department", {}, {}, WordSpace),
      Alt(WordSpace, "laboratory", {}, {}, LetterSpace),
      Alt(WordSpace, "cent", {'e', 'r', '|'}, {}, WordSpace),
      Alt(WordSpace, "service", {}, {}, LetterSpace) ]
  }

  function CompanyAlts(): seq<Alt> {
    [ Alt(WordSpace, "universit", {'y', '|', 'a', 'r', 'i'}, {}, WordSpace),
      Alt(WordSpaceQuote, "institut", {}, {'e'}, WordSpaceQuote),
      Alt(WordSpace, "eth", {}, {}, WordSpace) ]
  }

  function Alts(mode: Mode): seq<Alt>
    requires mode != Email
  {
    if mode == Department then DepartmentAlts() else CompanyAlts()
  }

  /** Length of the keyword of `alt`. */
  function KeyLen(alt: Alt): nat {
    |alt.word| + if alt.cls == {} then 0 else 1
  }

  /** The keyword accepts only letters and `|`. */
  predicate PlainKey(alt: Alt) {
    && |alt.word| > 0
    && (forall k :: 0 <= k < |alt.word| ==> IsAsciiLower(alt.word[k]))
    && (forall c :: c in alt.cls ==> IsAsciiLower(c) || c == '|')
  }

  lemma AltsPlain(mode: Mode)
    requires mode != Email
    ensures forall a :: 0 <= a < |Alts(mode)| ==> PlainKey(Alts(mode)[a])
  {
  }

  // ---------------------------------------------------------------------------
  // The pieces of a greedy match

  /** Length of the longest run of class-`k` characters starting at `i` (a greedy `[...]*`). */
  function Run(s: string, i: nat, k: CharClass): (n: nat)
    requires i <= |s|
    ensures AllClass(s, i, i + n, k)
    ensures i + n == |s| || !InClass(s[i + n], k)
    decreases |s| - i
  {
    if i < |s| && InClass(s[i], k) then 1 + Run(s, i + 1, k) else 0
  }

  /** A class run never reaches past the greedy run. */
  lemma RunBounds(s: string, i: nat, j: nat, k: CharClass)
    requires i <= |s| && AllClass(s, i, j, k)
    ensures j <= i + Run(s, i, k)
  {
  }

  /** The keyword of `alt` matches (case-insensitively) at position `p` of `s`. */
  predicate KeyAt(s: string, p: nat, alt: Alt) {
    && p + KeyLen(alt) <= |s|
    && (forall k :: 0 <= k < |alt.word| ==> Lower(s[p + k]) == alt.word[k])
    && (alt.cls != {} ==> Lower(s[p + |alt.word|]) in alt.cls)
  }

  /** The largest `p` in `[lo, hi]` at which `key` matches: the first hit of a backtracking `lead*`. */
  function LastKeyAt(s: string, lo: nat, hi: nat, alt: Alt): (r: Option<nat>)
    requires lo <= hi
    ensures r.Some? ==> lo <= r.value <= hi && KeyAt(s, r.value, alt)
    ensures r.Some? ==> forall q :: r.value < q <= hi ==> !KeyAt(s, q, alt)
    ensures r.None? ==> forall q :: lo <= q <= hi ==> !KeyAt(s, q, alt)
    decreases hi - lo
  {
    if KeyAt(s, hi, alt) then Some(hi)
    else if hi == lo then None
    else LastKeyAt(s, lo, hi - 1, alt)
  }

  /**
    Where a match is: it starts at `start`, its keyword (or the `@` of an e-mail address) occupies
    `[keyAt, keyEnd)` and it ends at `end`.
  */
  datatype Span = Span(start: nat, keyAt: nat, keyEnd: nat, end: nat)

  predicate WellFormed(s: string, sp: Span) {
    sp.start <= sp.keyAt < sp.keyEnd <= sp.end <= |s|
  }

  /** Alternative `alt` can match at `i`: a run of lead characters followed by the keyword. */
  predicate AltMatches(s: string, i: nat, alt: Alt) {
    exists p: nat | p <= |s| :: AllClass(s, i, p, alt.lead) && KeyAt(s, p, alt)
  }

  /** End of the optional atom after the keyword ending at `q` (a greedy `?`). */
  function OptEnd(s: string, q: nat, opt: set<char>): (r: nat)
    requires q <= |s|
    ensures r == q || (r == q + 1 <= |s| && Lower(s[q]) in opt)
    ensures r == q ==> q == |s| || Lower(s[q]) !in opt
  {
    if q < |s| && Lower(s[q]) in opt then q + 1 else q
  }

  /** No run of class-`k` characters from `i` reaches past the greedy run. */
  lemma RunIsLongest(s: string, i: nat, k: CharClass)
    requires i <= |s|
    ensures forall p: nat :: AllClass(s, i, p, k) ==> p <= i + Run(s, i, k)
  {
    forall p: nat | AllClass(s, i, p, k) ensures p <= i + Run(s, i, k) { RunBounds(s, i, p, k); }
  }

  /**
    The greedy match of one alternative at `i`: the lead run backtracks to the LAST keyword
    position it can reach, then the optional atom and the tail run take all they can.
  */
  function AltMatchAt(s: string, i: nat, alt: Alt): (r: Option<Span>)
    requires i <= |s| && |alt.word| > 0
    ensures r.Some? <==> AltMatches(s, i, alt)
    ensures r.Some? ==> var sp := r.value;
      && sp.start == i && WellFormed(s, sp) && sp.keyEnd == sp.keyAt + KeyLen(alt)
      && AllClass(s, i, sp.keyAt, alt.lead) && KeyAt(s, sp.keyAt, alt)
  {
    var hi := i + Run(s, i, alt.lead);
    RunIsLongest(s, i, alt.lead);
    match LastKeyAt(s, i, hi, alt)
    case None => None
    case Some(p) =>
      var o := OptEnd(s, p + KeyLen(alt), alt.opt);
      Some(Span(i, p, p + KeyLen(alt), o + Run(s, o, alt.tail)))
  }

  /**
    The match `AltMatchAt` reports is the greedy one: no keyword lies further right within reach of
    the lead run, the optional atom is taken when present, and the tail run stops only at a character
    outside its class.
  */
  lemma AltMatchAtGreedy(s: string, i: nat, alt: Alt)
    requires i <= |s| && |alt.word| > 0 && AltMatchAt(s, i, alt).Some?
    ensures var sp := AltMatchAt(s, i, alt).value;
      && (forall q :: sp.keyAt < q <= |s| && AllClass(s, i, q, alt.lead) ==> !KeyAt(s, q, alt))
      && var o := OptEnd(s, sp.keyEnd, alt.opt);
         AllClass(s, o, sp.end, alt.tail) && (sp.end == |s| || !InClass(s[sp.end], alt.tail))
  {
    RunIsLongest(s, i, alt.lead);
  }

  predicate AllPlain(alts: seq<Alt>) {
    forall a :: 0 <= a < |alts| ==> PlainKey(alts[a])
  }

  /** The keyword span of `sp` is a match of the keyword of one of `alts`. */
  predicate HitsKey(s: string, sp: Span, alts: seq<Alt>) {
    exists a :: 0 <= a < |alts| && KeyAt(s, sp.keyAt, alts[a]) && sp.keyEnd == sp.keyAt + KeyLen(alts[a])
  }

  /** Neither end of the keyword of a match is whitespace. */
  predicate KeyVisible(s: string, sp: Span) {
    sp.keyAt < sp.keyEnd <= |s| && !IsSpace(s[sp.keyAt]) && !IsSpace(s[sp.keyEnd - 1])
  }

  /** `Lower(c)` a lower-case letter or `|`, or `c` an `@`: then `c` is no whitespace. */
  lemma PlainNotSpace(c: char)
    requires IsAsciiLower(Lower(c)) || Lower(c) == '|' || c == '@'
    ensures !IsSpace(c)
  {
  }

  /** A keyword match never has whitespace at its ends. */
  lemma KeyAtVisible(s: string, p: nat, alt: Alt)
    requires PlainKey(alt) && KeyAt(s, p, alt)
    ensures !IsSpace(s[p]) && !IsSpace(s[p + KeyLen(alt) - 1])
  {
    assert Lower(s[p + 0]) == alt.word[0];
    PlainNotSpace(s[p]);
    if alt.cls == {} {
      assert Lower(s[p + (|alt.word| - 1)]) == alt.word[|alt.word| - 1];
    }
    PlainNotSpace(s[p + KeyLen(alt) - 1]);
  }

  /** Index of the first alternative of `alts[from..]`, in pattern order, that can match at `i`; `|alts|` if none. */
  function FirstAlt(s: string, i: nat, alts: seq<Alt>, from: nat): (k: nat)
    requires i <= |s| && from <= |alts|
    ensures from <= k <= |alts|
    ensures k < |alts| ==> AltMatches(s, i, alts[k])
    ensures forall b :: from <= b < k ==> !AltMatches(s, i, alts[b])
    decreases |alts| - from
  {
    if from == |alts| || AltMatches(s, i, alts[from]) then from else FirstAlt(s, i, alts, from + 1)
  }

  /** The match at `i` of the first alternative of `alts`, in pattern order, that can match there. */
  function FirstAltAt(s: string, i: nat, alts: seq<Alt>): (r: Option<Span>)
    requires i <= |s| && AllPlain(alts)
    ensures r.None? <==> forall a :: 0 <= a < |alts| ==> !AltMatches(s, i, alts[a])
    ensures r.Some? ==> r.value.start == i && WellFormed(s, r.value)
    ensures r.Some? ==> HitsKey(s, r.value, alts)
  {
    var k := FirstAlt(s, i, alts, 0);
    if k == |alts| then None else AltMatchAt(s, i, alts[k])
  }

  // ---------------------------------------------------------------------------
  // The e-mail pattern

  /** `\b`: exactly one of the characters around position `i` is a word character. */
  predicate WordBoundary(s: string, i: nat) {
    (0 < i <= |s| && IsWordChar(s[i - 1])) != (i < |s| && IsWordChar(s[i]))
  }

  /** After the `@`: a domain run, then a `.` followed by at least two letters. */
  predicate DomainFrom(s: string, j: nat) {
    exists dot: nat | dot < |s| :: j < dot && AllClass(s, j, dot, Domain) && TldAt(s, dot)
  }

  /** The e-mail pattern can match at `i`: boundary, local part, `@`, domain, `.`, two letters. */
  predicate EmailMatches(s: string, i: nat) {
    && WordBoundary(s, i)
    && exists at: nat | at < |s| :: i < at && AllClass(s, i, at, Local) && s[at] == '@' && DomainFrom(s, at + 1)
  }

  /** The top-level-domain dot: a `.` followed by at least two letters. */
  predicate TldAt(s: string, d: nat) {
    d + 2 < |s| && s[d] == '.' && InClass(s[d + 1], Letter) && InClass(s[d + 2], Letter)
  }

  /** The largest `d` in `[lo, hi]` with `TldAt`: where the backtracking domain run stops. */
  function LastTldAt(s: string, lo: nat, hi: nat): (r: Option<nat>)
    requires lo <= hi
    ensures r.Some? ==> lo <= r.value <= hi && TldAt(s, r.value)
    ensures r.Some? ==> forall q :: r.value < q <= hi ==> !TldAt(s, q)
    ensures r.None? ==> forall q :: lo <= q <= hi ==> !TldAt(s, q)
    decreases hi - lo
  {
    if TldAt(s, hi) then Some(hi)
    else if hi == lo then None
    else LastTldAt(s, lo, hi - 1)
  }

  /** Since `@` is not a local character, the only `@` the local part can reach ends its greedy run. */
  lemma LocalPartUnique(s: string, i: nat, at: nat)
    requires i < at < |s| && AllClass(s, i, at, Local) && s[at] == '@'
    ensures at == i + Run(s, i, Local)
  {
    RunBounds(s, i, at, Local);
  }

  /** The domain part ends at the last TLD dot its greedy run reaches. */
  function DomainEnd(s: string, j: nat): (r: Option<nat>)
    requires j <= |s|
    ensures r.Some? <==> DomainFrom(s, j)
    ensures r.Some? ==> j < r.value && AllClass(s, j, r.value, Domain) && TldAt(s, r.value)
    ensures r.Some? ==> forall q: nat :: r.value < q && AllClass(s, j, q, Domain) ==> !TldAt(s, q)
  {
    var dmax := j + Run(s, j, Domain);
    if dmax < j + 1 then
      assert !DomainFrom(s, j) by {
        forall dot: nat | j < dot && AllClass(s, j, dot, Domain) ensures false {
          RunBounds(s, j, dot, Domain);
        }
      }
      None
    else
      var r := LastTldAt(s, j + 1, dmax);
      assert forall q: nat :: AllClass(s, j, q, Domain) ==> q <= dmax by {
        forall q: nat | AllClass(s, j, q, Domain) ensures q <= dmax { RunBounds(s, j, q, Domain); }
      }
      if r.Some? then assert AllClass(s, j, r.value, Domain); r else r
  }

  function Min(a: nat, b: nat): nat { if a <= b then a else b }

  /** The e-mail pattern matches at `i` exactly when the greedy local part ends at an `@` followed by a domain. */
  lemma EmailMatchesGreedy(s: string, i: nat)
    requires i <= |s|
    ensures var at := i + Run(s, i, Local);
      EmailMatches(s, i) <==> WordBoundary(s, i) && i < at < |s| && s[at] == '@' && DomainFrom(s, at + 1)
  {
    forall a': nat | a' < |s| && i < a' && AllClass(s, i, a', Local) && s[a'] == '@'
      ensures a' == i + Run(s, i, Local)
    {
      LocalPartUnique(s, i, a');
    }
  }

  /** After a TLD dot the pattern takes two to four letters, all inside `s`. */
  lemma TldLetters(s: string, d: nat)
    requires TldAt(s, d)
    ensures var n := Min(4, Run(s, d + 1, Letter));
      2 <= n && d + 1 + n <= |s| && InClass(s[d + n], Letter)
  {
    var n := Min(4, Run(s, d + 1, Letter));
    assert AllClass(s, d + 1, d + 3, Letter);
    RunBounds(s, d + 1, d + 3, Letter);
    assert AllClass(s, d + 1, d + 1 + Run(s, d + 1, Letter), Letter);
    assert d + 1 <= d + n < d + 1 + Run(s, d + 1, Letter);
  }

  /** The greedy e-mail match at `i`; its "keyword" is the `@`. */
  function EmailAt(s: string, i: nat): (r: Option<Span>)
    requires i <= |s|
    ensures r.Some? <==> EmailMatches(s, i)
    ensures r.Some? ==> var sp := r.value;
      && sp.start == i && WellFormed(s, sp) && sp.keyEnd == sp.keyAt + 1 && s[sp.keyAt] == '@'
      && sp.keyAt == i + Run(s, i, Local) && InClass(s[sp.end - 1], Letter)
  {
    var at := i + Run(s, i, Local);
    EmailMatchesGreedy(s, i);
    if !WordBoundary(s, i) || at == i || at == |s| || s[at] != '@' then None
    else
      match DomainEnd(s, at + 1)
      case None => None
      case Some(d) =>
        TldLetters(s, d);
        Some(Span(i, at, at + 1, d + 1 + Min(4, Run(s, d + 1, Letter))))
  }

  // ---------------------------------------------------------------------------
  // The search

  /** Some alternative of `alts` can match at `i`. */
  predicate AnyAltMatches(s: string, i: nat, alts: seq<Alt>) {
    exists a :: 0 <= a < |alts| && AltMatches(s, i, alts[a])
  }

  /** The pattern of `mode` can match starting at `i`. */
  predicate MatchesAt(s: string, i: nat, mode: Mode) {
    if mode == Email then EmailMatches(s, i) else AnyAltMatches(s, i, Alts(mode))
  }

  /** The match reported at start `i`: the first alternative, in pattern order, that matches there. */
  function MatchAt(s: string, i: nat, mode: Mode): (r: Option<Span>)
    requires i <= |s|
    ensures r.Some? ==> r.value.start == i && WellFormed(s, r.value)
  {
    if mode == Email then EmailAt(s, i)
    else
      AltsPlain(mode);
      FirstAltAt(s, i, Alts(mode))
  }

  /** `MatchAt` finds a match at `i` exactly when the pattern can match there. */
  lemma MatchAtMeaning(s: string, i: nat, mode: Mode)
    requires i <= |s|
    ensures MatchAt(s, i, mode).Some? <==> MatchesAt(s, i, mode)
  {
    if mode != Email { AltsPlain(mode); }
  }

  /** What `MatchAt` reports holds the keyword of one of the alternatives, or the `@` of an address. */
  lemma MatchAtKey(s: string, i: nat, mode: Mode)
    requires i <= |s| && MatchAt(s, i, mode).Some?
    ensures var sp := MatchAt(s, i, mode).value;
      && (mode != Email ==> HitsKey(s, sp, Alts(mode)))
      && (mode == Email ==> s[sp.keyAt] == '@' && sp.keyEnd == sp.keyAt + 1)
  {
    if mode != Email { AltsPlain(mode); }
  }

  /** Index of the first `Some` in `xs[i..]`, or `|xs|` when there is none. */
  function FirstSome<T>(xs: seq<Option<T>>, i: nat): (k: nat)
    requires i <= |xs|
    ensures i <= k <= |xs|
    ensures k < |xs| ==> xs[k].Some?
    ensures forall j :: i <= j < k ==> xs[j].None?
    decreases |xs| - i
  {
    if i == |xs| || xs[i].Some? then i else FirstSome(xs, i + 1)
  }

  /** The match `MatchAt` reports at each start position `0..|s|`. */
  function MatchTable(s: string, mode: Mode): (ms: seq<Option<Span>>)
    ensures |ms| == |s| + 1
  {
    seq(|s| + 1, j requires 0 <= j <= |s| => MatchAt(s, j, mode))
  }

  /** `re.search`: start positions are tried from left to right; the first that matches wins. */
  function Search(s: string, mode: Mode): (r: Option<Span>)
  {
    var ms := MatchTable(s, mode);
    var k := FirstSome(ms, 0);
    if k == |ms| then None else ms[k]
  }

  /** `Search` reports the match at the leftmost start position where the pattern can match. */
  lemma SearchMeaning(s: string, mode: Mode)
    ensures Search(s, mode).None? <==> forall j :: 0 <= j <= |s| ==> !MatchesAt(s, j, mode)
    ensures Search(s, mode).Some? ==> var sp := Search(s, mode).value;
      && sp.start <= |s| && MatchAt(s, sp.start, mode) == Search(s, mode) && MatchesAt(s, sp.start, mode)
      && forall j :: 0 <= j < sp.start ==> !MatchesAt(s, j, mode)
  {
    var ms := MatchTable(s, mode);
    forall j | 0 <= j <= |s| ensures ms[j].Some? <==> MatchesAt(s, j, mode) {
      MatchAtMeaning(s, j, mode);
    }
    var k := FirstSome(ms, 0);
    if k < |ms| {
      assert ms[k] == MatchAt(s, k, mode);
    }
  }

  predicate IsSubstring(t: string, s: string) {
    exists i, j :: 0 <= i <= j <= |s| && t == s[i..j]
  }

  /** `t` contains the keyword of one of the alternatives of `mode`, or an `@` for e-mail. */
  predicate ContainsKey(t: string, mode: Mode) {
    if mode == Email then '@' in t
    else exists a, p: nat :: 0 <= a < |Alts(mode)| && p <= |t| && KeyAt(t, p, Alts(mode)[a])
  }

  /** The keyword of a match, or its `@`, has no whitespace at either end. */
  lemma MatchVisible(s: string, sp: Span, mode: Mode)
    requires WellFormed(s, sp)
    requires mode != Email ==> HitsKey(s, sp, Alts(mode))
    requires mode == Email ==> s[sp.keyAt] == '@' && sp.keyEnd == sp.keyAt + 1
    ensures KeyVisible(s, sp)
  {
    if mode == Email {
      PlainNotSpace(s[sp.keyAt]);
    } else {
      var a :| 0 <= a < |Alts(mode)| && KeyAt(s, sp.keyAt, Alts(mode)[a]) && sp.keyEnd == sp.keyAt + KeyLen(Alts(mode)[a]);
      AltsPlain(mode);
      KeyAtVisible(s, sp.keyAt, Alts(mode)[a]);
    }
  }

  /** Stripping the matched text keeps its keyword: the stripped text is a slice of `s` around it. */
  lemma StrippedMatch(s: string, sp: Span)
    requires WellFormed(s, sp) && KeyVisible(s, sp)
    ensures var t := s[sp.start..sp.end]; var a := StripStart(t, Spaces);
      && sp.start + a <= sp.keyAt && sp.keyEnd <= sp.start + a + |StripSpace(t)|
      && StripSpace(t) == s[sp.start + a..sp.start + a + |StripSpace(t)|]
  {
    StripSliceKeeps(s, sp.start, sp.end, sp.keyAt, sp.keyEnd, Spaces);
  }

  /** A keyword match inside a slice is a keyword match of the slice. */
  lemma KeyAtSlice(s: string, p: nat, alt: Alt, lo: nat, hi: nat)
    requires lo <= p && p + KeyLen(alt) <= hi <= |s| && KeyAt(s, p, alt)
    ensures KeyAt(s[lo..hi], p - lo, alt)
  {
    var t := s[lo..hi];
    forall k | 0 <= k < |alt.word| ensures Lower(t[p - lo + k]) == alt.word[k] {
      assert t[p - lo + k] == s[p + k];
    }
    if alt.cls != {} {
      assert t[p - lo + |alt.word|] == s[p + |alt.word|];
    }
  }

  /** The reported match, stripped, is a non-empty piece of `s` that still holds the keyword or the `@`. */
  lemma StrippedMatchKeepsKey(s: string, sp: Span, mode: Mode)
    requires WellFormed(s, sp)
    requires mode != Email ==> HitsKey(s, sp, Alts(mode))
    requires mode == Email ==> s[sp.keyAt] == '@' && sp.keyEnd == sp.keyAt + 1
    ensures var r := StripSpace(s[sp.start..sp.end]);
      r != "" && IsSubstring(r, s) && ContainsKey(r, mode)
  {
    var r := StripSpace(s[sp.start..sp.end]);
    MatchVisible(s, sp, mode);
    StrippedMatch(s, sp);
    var lo := sp.start + StripStart(s[sp.start..sp.end], Spaces);
    var hi := lo + |r|;
    assert r == s[lo..hi];
    if mode == Email {
      assert r[sp.keyAt - lo] == '@';
    } else {
      var alt :| 0 <= alt < |Alts(mode)| && KeyAt(s, sp.keyAt, Alts(mode)[alt])
        && sp.keyEnd == sp.keyAt + KeyLen(Alts(mode)[alt]);
      KeyAtSlice(s, sp.keyAt, Alts(mode)[alt], lo, hi);
    }
  }

  /** `regex_search(institute, mode)`: the reported match, stripped, or "" when there is none. */
  function RegexSearch(institute: string, mode: Mode): string {
    match Search(institute, mode)
    case None => ""
    case Some(sp) => StripSpace(institute[sp.start..sp.end])
  }

  /**
    What `regex_search` returns: "" exactly when the pattern matches nowhere; otherwise the match
    `MatchAt` reports at the leftmost position where the pattern can match (its first matching
    alternative, with the greedy extent `AltMatchAtGreedy` describes), stripped, which is a piece of
    the input that still contains the keyword (or the `@`).
  */
  lemma RegexSearchMeaning(institute: string, mode: Mode)
    ensures var r := RegexSearch(institute, mode);
      && (r == "" <==> forall j :: 0 <= j <= |institute| ==> !MatchesAt(institute, j, mode))
      && (r != "" ==> exists sp :: (Search(institute, mode) == Some(sp)
           && sp.start <= sp.end <= |institute| && MatchAt(institute, sp.start, mode) == Some(sp)
           && MatchesAt(institute, sp.start, mode)
           && (forall j :: 0 <= j < sp.start ==> !MatchesAt(institute, j, mode))
           && r == StripSpace(institute[sp.start..sp.end])))
      && (r != "" ==> IsSubstring(r, institute) && ContainsKey(r, mode))
  {
    SearchMeaning(institute, mode);
    match Search(institute, mode)
    case None =>
    case Some(sp) =>
      MatchAtKey(institute, sp.start, mode);
      StrippedMatchKeepsKey(institute, sp, mode);
  }

  // ---------------------------------------------------------------------------
  // Evaluating a search on a given text: each lemma turns facts about a few characters into the
  // value of one of the functions above.

  /** A class run that stops at `j` is the greedy run. */
  lemma RunTo(s: string, i: nat, j: nat, k: CharClass)
    requires AllClass(s, i, j, k) && (j == |s| || !InClass(s[j], k))
    ensures Run(s, i, k) == j - i
  {
    RunBounds(s, i, j, k);
  }

  /** One mismatching character rules out a keyword. */
  lemma NotKeyAt(s: string, p: nat, alt: Alt, k: nat)
    requires k < |alt.word| && p + k < |s| && Lower(s[p + k]) != alt.word[k]
    ensures !KeyAt(s, p, alt)
  {
  }

  /** The backtracking lead run settles on `p` when no keyword lies further right within reach. */
  lemma LastKeyAtIs(s: string, lo: nat, hi: nat, alt: Alt, p: nat)
    requires lo <= p <= hi && KeyAt(s, p, alt) && forall q :: p < q <= hi ==> !KeyAt(s, q, alt)
    ensures LastKeyAt(s, lo, hi, alt) == Some(p)
  {
  }

  /** `AltMatchAt` once its greedy lead run and its last keyword position are known. */
  lemma AltMatchAtUnfold(s: string, i: nat, alt: Alt, hi: nat, p: nat)
    requires i <= hi <= |s| && |alt.word| > 0 && p + KeyLen(alt) <= |s|
    requires Run(s, i, alt.lead) == hi - i && LastKeyAt(s, i, hi, alt) == Some(p)
    ensures var o := OptEnd(s, p + KeyLen(alt), alt.opt);
      AltMatchAt(s, i, alt) == Some(Span(i, p, p + KeyLen(alt), o + Run(s, o, alt.tail)))
  {
  }

  /**
    The match of one alternative at `i` when the lead run stops at `hi` and `p` is the last
    keyword position in `[i, hi]`.
  */
  lemma AltMatchAtFound(s: string, i: nat, alt: Alt, hi: nat, p: nat)
    requires |alt.word| > 0 && AllClass(s, i, hi, alt.lead) && (hi == |s| || !InClass(s[hi], alt.lead))
    requires i <= p <= hi && KeyAt(s, p, alt) && forall q :: p < q <= hi ==> !KeyAt(s, q, alt)
    ensures var o := OptEnd(s, p + KeyLen(alt), alt.opt);
      AltMatchAt(s, i, alt) == Some(Span(i, p, p + KeyLen(alt), o + Run(s, o, alt.tail)))
  {
    RunTo(s, i, hi, alt.lead);
    LastKeyAtIs(s, i, hi, alt, p);
    AltMatchAtUnfold(s, i, alt, hi, p);
  }

  /** An alternative cannot match at `j` when its lead run is cut at `stop` before any keyword. */
  lemma NoAltMatch(s: string, j: nat, stop: nat, alt: Alt)
    requires j <= stop < |s| && !InClass(s[stop], alt.lead)
    requires forall q :: j <= q <= stop ==> !KeyAt(s, q, alt)
    ensures !AltMatches(s, j, alt)
  {
    forall p: nat | p <= |s| && AllClass(s, j, p, alt.lead) ensures p <= stop { }
  }

  /** The search reports the match at `i` when the pattern matches there and nowhere before. */
  lemma SearchAt(s: string, mode: Mode, i: nat)
    requires i <= |s| && MatchesAt(s, i, mode) && forall j :: 0 <= j < i ==> !MatchesAt(s, j, mode)
    ensures Search(s, mode) == MatchAt(s, i, mode)
  {
    SearchMeaning(s, mode);
  }

  /** When the first alternative matches at `i`, it is the one reported there. */
  lemma MatchAtFirstAlt(s: string, i: nat, mode: Mode)
    requires mode != Email && i <= |s| && AltMatches(s, i, Alts(mode)[0])
    ensures MatchesAt(s, i, mode) && MatchAt(s, i, mode) == AltMatchAt(s, i, Alts(mode)[0])
  {
    AltsPlain(mode);
  }

  /**
    The search reports the first alternative's match at `i` when it has a keyword at `p`, reachable
    by its lead run, and the pattern matches nowhere before `i`.
  */
  lemma SearchFirstAlt(s: string, mode: Mode, i: nat, p: nat)
    requires mode != Email && i <= p <= |s|
    requires forall j :: 0 <= j < i ==> !MatchesAt(s, j, mode)
    requires AllClass(s, i, p, Alts(mode)[0].lead) && KeyAt(s, p, Alts(mode)[0])
    ensures Search(s, mode) == AltMatchAt(s, i, Alts(mode)[0])
  {
    MatchAtFirstAlt(s, i, mode);
    SearchAt(s, mode, i);
  }

  /** An affiliation without an `@` yields no e-mail address. */
  lemma NoAtNoEmail(s: string)
    requires '@' !in s
    ensures RegexSearch(s, Email) == ""
  {
    RegexSearchMeaning(s, Email);
  }
}
