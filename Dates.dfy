/**
  `Article.find_date` (LeadEntry/leadentry.py): which of a PubMed record's dates is used, and how its
  day, month and year text become a date. The source concatenates the three fields and hands the result
  to `time.strptime` with `'%d%m%Y'` (numeric month) or `'%d%b%Y'` (month abbreviation). `Strptime`
  models that as written, including the regular expression `time.strptime` builds and its
  backtracking; `ParseFields` reads each field on its own, which is what the concatenation evidently
  intends, and is what the rest of the model uses.
*/
module Dates {
  import opened Wrappers
  import opened Text

  // ---------------------------------------------------------------------------
  // The dates of a record and the choice between them

  /** A `<PubDate>`, `<ArticleDate>` or `<PubMedPubDate>` element: its `Year`, `Month` and `Day` children, each possibly absent. */
  datatype DateTag = DateTag(year: Option<string>, month: Option<string>, day: Option<string>)

  /** `<ArticleDate>` with its `DateType` attribute (`None`: the attribute is absent). */
  datatype ArticleDate = ArticleDate(dateType: Option<string>, date: DateTag)

  /** The dates `find_date` can look at (`None`: no such element in the record). */
  datatype RecordDates = RecordDates(pubDate: Option<DateTag>, articleDate: Option<ArticleDate>, medlineDate: Option<DateTag>)

  /** The stripped texts of the three fields, in the order the source formats them. */
  datatype Fields = Fields(day: string, month: string, year: string)

  predicate Complete(d: DateTag) {
    d.year.Some? && d.month.Some? && d.day.Some?
  }

  function FieldsOf(d: DateTag): Fields
    requires Complete(d)
  {
    Fields(StripSpace(d.day.value), StripSpace(d.month.value), StripSpace(d.year.value))
  }

  /** Reading all three fields of `d`: `AttributeError` if one is missing. */
  function ReadFields(d: DateTag): (r: Result<Fields, Raised>)
    ensures r.Success? <==> Complete(d)
    ensures r.Success? ==> r.value == FieldsOf(d)
    ensures r.Failure? ==> r.error == AttributeError
  {
    if Complete(d) then Success(FieldsOf(d)) else Failure(AttributeError)
  }

  /** The `<PubDate>` is there but lacks a field: the `except AttributeError` branch runs. */
  predicate FallsBack(dates: RecordDates) {
    dates.pubDate.Some? && !Complete(dates.pubDate.value)
  }

  /** The fallback takes the `<ArticleDate>`: it is there and its `DateType` is "Electronic". */
  predicate UsesArticleDate(dates: RecordDates) {
    FallsBack(dates) && dates.articleDate.Some? && dates.articleDate.value.dateType == Some("Electronic")
  }

  /** The fallback takes the medline date: no `<ArticleDate>`, or one with another `DateType`. */
  predicate UsesMedline(dates: RecordDates) {
    && FallsBack(dates)
    && (|| dates.articleDate.None?
        || (dates.articleDate.value.dateType.Some? && dates.articleDate.value.dateType != Some("Electronic")))
  }

  /**
    The fields `find_date` ends up with. No `<PubDate>` at all leaves `year`, `month` and `day`
    unassigned, so the code raises `NameError` when it reads `month`; an incomplete one falls back to
    the `<ArticleDate>` when its `DateType` is "Electronic", even if that one is incomplete too
    (`KeyError` if the attribute is absent), and otherwise to the `PubStatus="medline"` date.
  */
  function SelectFields(dates: RecordDates): (r: Result<Fields, Raised>)
    ensures dates.pubDate.None? ==> r == Failure(NameError)
    ensures dates.pubDate.Some? && Complete(dates.pubDate.value) ==> r == Success(FieldsOf(dates.pubDate.value))
    ensures FallsBack(dates) && dates.articleDate.Some? && dates.articleDate.value.dateType.None? ==>
      r == Failure(KeyError)
    ensures UsesArticleDate(dates) ==> r == ReadFields(dates.articleDate.value.date)
    ensures UsesMedline(dates) ==>
      r == if dates.medlineDate.None? then Failure(AttributeError) else ReadFields(dates.medlineDate.value)
  {
    match dates.pubDate
    case None => Failure(NameError)
    case Some(pub) =>
      if Complete(pub) then Success(FieldsOf(pub))
      else if dates.articleDate.Some? && dates.articleDate.value.dateType.None? then Failure(KeyError)
      else if dates.articleDate.Some? && dates.articleDate.value.dateType == Some("Electronic") then
        ReadFields(dates.articleDate.value.date)
      else if dates.medlineDate.None? then Failure(AttributeError)
      else ReadFields(dates.medlineDate.value)
  }

  /** The cases above are all the cases: every record takes exactly one of the paths. */
  lemma SelectFieldsCases(dates: RecordDates)
    ensures || dates.pubDate.None?
            || Complete(dates.pubDate.value)
            || (FallsBack(dates) && dates.articleDate.Some? && dates.articleDate.value.dateType.None?)
            || UsesArticleDate(dates)
            || UsesMedline(dates)
    ensures !(UsesArticleDate(dates) && UsesMedline(dates))
  {
  }

  // ---------------------------------------------------------------------------
  // Calendar

  datatype Date = Date(year: nat, month: nat, day: nat)

  predicate IsLeap(y: nat) {
    y % 4 == 0 && (y % 100 != 0 || y % 400 == 0)
  }

  function DaysIn(y: nat, m: nat): nat
    requires 1 <= m <= 12
  {
    if m == 2 then (if IsLeap(y) then 29 else 28)
    else if m == 4 || m == 6 || m == 9 || m == 11 then 30
    else 31
  }

  /** What `datetime.date(year, month, day)` accepts; `strptime` raises `ValueError` otherwise. */
  predicate ValidDate(d: Date) {
    1 <= d.year && 1 <= d.month <= 12 && 1 <= d.day <= DaysIn(d.year, d.month)
  }

  // ---------------------------------------------------------------------------
  // The directives of the format

  function Digit(c: char): nat
    requires IsAsciiDigit(c)
  {
    c as int - '0' as int
  }

  predicate NonZero(c: char) { '1' <= c <= '9' }

  /** One way an alternative of a directive can match: `len` characters, read as `value`. */
  datatype Piece = Piece(len: nat, value: nat)

  /** `%d` is `3[01]|[12]\d|0[1-9]|[1-9]| [1-9]`: the alternatives that match at `i`, in pattern order. */
  function DayPieces(s: string, i: nat): seq<Piece>
    requires i <= |s|
  {
    var two := i + 1 < |s|;
    (if two && s[i] == '3' && (s[i + 1] == '0' || s[i + 1] == '1') then [Piece(2, 30 + Digit(s[i + 1]))] else [])
    + (if two && (s[i] == '1' || s[i] == '2') && IsAsciiDigit(s[i + 1]) then [Piece(2, 10 * Digit(s[i]) + Digit(s[i + 1]))] else [])
    + (if two && s[i] == '0' && NonZero(s[i + 1]) then [Piece(2, Digit(s[i + 1]))] else [])
    + (if i < |s| && NonZero(s[i]) then [Piece(1, Digit(s[i]))] else [])
    + (if two && s[i] == ' ' && NonZero(s[i + 1]) then [Piece(2, Digit(s[i + 1]))] else [])
  }

  /** `%m` is `1[0-2]|0[1-9]|[1-9]`. */
  function MonthNumberPieces(s: string, i: nat): seq<Piece>
    requires i <= |s|
  {
    var two := i + 1 < |s|;
    (if two && s[i] == '1' && '0' <= s[i + 1] <= '2' then [Piece(2, 10 + Digit(s[i + 1]))] else [])
    + (if two && s[i] == '0' && NonZero(s[i + 1]) then [Piece(2, Digit(s[i + 1]))] else [])
    + (if i < |s| && NonZero(s[i]) then [Piece(1, Digit(s[i]))] else [])
  }

  /** The month abbreviations of the C locale, lower-cased as `time.strptime` holds them. */
  const MonthNames: seq<string> :=
    ["jan", "feb", "mar", "apr", "may", "jun", "jul", "aug", "sep", "oct", "nov", "dec"]

  /** The three characters at `i` spell, ignoring case, the month name with index `k`. */
  predicate NameAt(s: string, i: nat, k: nat)
    requires k < 12
  {
    i + 3 <= |s| && Lower(s[i]) == MonthNames[k][0] && Lower(s[i + 1]) == MonthNames[k][1]
      && Lower(s[i + 2]) == MonthNames[k][2]
  }

  /** Index of the month name at `i`, searching from `k`. */
  function NameFrom(s: string, i: nat, k: nat): (r: Option<nat>)
    requires k <= 12
    ensures r.Some? ==> k <= r.value < 12 && NameAt(s, i, r.value)
    ensures r.None? ==> forall n :: k <= n < 12 ==> !NameAt(s, i, n)
    decreases 12 - k
  {
    if k == 12 then None else if NameAt(s, i, k) then Some(k) else NameFrom(s, i, k + 1)
  }

  /** `%b`: one of the twelve abbreviations, case-insensitively. */
  function MonthNamePieces(s: string, i: nat): seq<Piece>
    requires i <= |s|
  {
    match NameFrom(s, i, 0)
    case None => []
    case Some(k) => [Piece(3, k + 1)]
  }

  function MonthPieces(s: string, i: nat, numeric: bool): seq<Piece>
    requires i <= |s|
  {
    if numeric then MonthNumberPieces(s, i) else MonthNamePieces(s, i)
  }

  /** Value of the four ASCII digits at `i` (`%Y` is `\d\d\d\d`). */
  function YearAt(s: string, i: nat): (r: Option<nat>)
  {
    if i + 4 <= |s| && IsAsciiDigit(s[i]) && IsAsciiDigit(s[i + 1]) && IsAsciiDigit(s[i + 2]) && IsAsciiDigit(s[i + 3])
    then Some(1000 * Digit(s[i]) + 100 * Digit(s[i + 1]) + 10 * Digit(s[i + 2]) + Digit(s[i + 3]))
    else None
  }

  /** A match of the whole format: the date read and where the match ends. */
  datatype Parsed = Parsed(date: Date, end: nat)

  /** The match with day piece `d`: the first month piece of `ms`, in pattern order, after which a year follows. */
  function MatchMonthYear(s: string, d: Piece, ms: seq<Piece>): (r: Option<Parsed>)
    ensures r.Some? ==> exists k :: (0 <= k < |ms| && YearAt(s, d.len + ms[k].len).Some?
      && r == Some(Parsed(Date(YearAt(s, d.len + ms[k].len).value, ms[k].value, d.value), d.len + ms[k].len + 4)))
    ensures r.None? <==> forall k :: 0 <= k < |ms| ==> YearAt(s, d.len + ms[k].len).None?
    decreases |ms|
  {
    if ms == [] then None
    else match YearAt(s, d.len + ms[0].len)
      case Some(y) => Some(Parsed(Date(y, ms[0].value, d.value), d.len + ms[0].len + 4))
      case None =>
        var r := MatchMonthYear(s, d, ms[1..]);
        assert forall k :: 1 <= k < |ms| ==> ms[k] == ms[1..][k - 1];
        r
  }

  /**
    `re.match` of the format's expression: the day alternatives are tried in order, and for each the
    month alternatives in order, until a year follows. Nothing requires the match to reach the end.
  */
  function MatchFormat(s: string, ds: seq<Piece>, numeric: bool): (r: Option<Parsed>)
    requires forall k :: 0 <= k < |ds| ==> ds[k].len <= |s|
    decreases |ds|
  {
    if ds == [] then None
    else match MatchMonthYear(s, ds[0], MonthPieces(s, ds[0].len, numeric))
      case Some(p) => Some(p)
      case None => MatchFormat(s, ds[1..], numeric)
  }

  /** Every day piece fits in the string it was read from. */
  lemma DayPiecesFit(s: string, i: nat)
    requires i <= |s|
    ensures forall k :: 0 <= k < |DayPieces(s, i)| ==> i + DayPieces(s, i)[k].len <= |s|
  {
  }

  /**
    `time.strptime(text, '%d%m%Y')` (`numeric`) or `time.strptime(text, '%d%b%Y')`: `ValueError` when
    the expression does not match, when it matches only a prefix ("unconverted data remains"), or when
    the date does not exist.
  */
  function Strptime(text: string, numeric: bool): (r: Result<Date, Raised>)
    ensures r.Success? ==> ValidDate(r.value)
    ensures r.Failure? ==> r.error == ValueError
  {
    DayPiecesFit(text, 0);
    match MatchFormat(text, DayPieces(text, 0), numeric)
    case None => Failure(ValueError)
    case Some(p) =>
      if p.end != |text| || !ValidDate(p.date) then Failure(ValueError) else Success(p.date)
  }

  /** As written: `strptime('{}{}{}'.format(day, month, year), ...)`, the format chosen by `month.isdigit()`. */
  function ParseConcatenated(f: Fields): Result<Date, Raised> {
    Strptime(f.day + f.month + f.year, IsDigitString(f.month))
  }

  // ---------------------------------------------------------------------------
  // Reading the fields one by one

  /** The value of the first piece that covers the whole of a field of length `n`. */
  function WholeValue(ps: seq<Piece>, n: nat): (r: Option<nat>)
    ensures r.Some? <==> exists k :: 0 <= k < |ps| && ps[k].len == n
    ensures r.Some? ==> exists k :: (0 <= k < |ps| && ps[k] == Piece(n, r.value)
      && forall j :: 0 <= j < k ==> ps[j].len != n)
    decreases |ps|
  {
    if ps == [] then None
    else if ps[0].len == n then Some(ps[0].value)
    else
      var r := WholeValue(ps[1..], n);
      assert forall k :: 1 <= k < |ps| ==> ps[k] == ps[1..][k - 1];
      r
  }

  /**
    Each field read on its own by its directive (the whole field must match it), then the date
    checked: what the concatenation is meant to do, and what the model of the article uses.
  */
  function ParseFields(f: Fields): (r: Result<Date, Raised>)
    ensures r.Success? ==> ValidDate(r.value)
    ensures r.Failure? ==> r.error == ValueError
  {
    var day := WholeValue(DayPieces(f.day, 0), |f.day|);
    var month := WholeValue(MonthPieces(f.month, 0, IsDigitString(f.month)), |f.month|);
    var year := if |f.year| == 4 then YearAt(f.year, 0) else None;
    if day.None? || month.None? || year.None? then Failure(ValueError)
    else
      var d := Date(year.value, month.value, day.value);
      if ValidDate(d) then Success(d) else Failure(ValueError)
  }

  // ---------------------------------------------------------------------------
  // The fields read by value: the same reading, stated without the directives' alternatives

  lemma DigitsOne(t: string)
    requires |t| == 1 && IsDigitString(t)
    ensures DigitsValue(t) == Digit(t[0])
  {
    assert t[..0] == [];
  }

  lemma DigitsTwo(t: string)
    requires |t| == 2 && IsDigitString(t)
    ensures DigitsValue(t) == 10 * Digit(t[0]) + Digit(t[1])
  {
    DigitsOne(t[..1]);
  }

  lemma DigitsFour(t: string)
    requires |t| == 4 && IsDigitString(t)
    ensures DigitsValue(t) == 1000 * Digit(t[0]) + 100 * Digit(t[1]) + 10 * Digit(t[2]) + Digit(t[3])
  {
    var u := t[..3];
    assert u[..2] == t[..2];
    DigitsTwo(t[..2]);
  }

  /** A day field: a non-zero digit, a space and a non-zero digit, or two digits worth 1 to 31. */
  function DayValue(t: string): (r: Option<nat>)
    ensures r.Some? ==> 1 <= r.value <= 31
  {
    if |t| == 1 && NonZero(t[0]) then Some(Digit(t[0]))
    else if |t| == 2 && t[0] == ' ' && NonZero(t[1]) then Some(Digit(t[1]))
    else if |t| == 2 && IsDigitString(t) && 1 <= DigitsValue(t) <= 31 then Some(DigitsValue(t))
    else None
  }

  /** A numeric month field: one or two digits worth 1 to 12. */
  function MonthNumberValue(t: string): (r: Option<nat>)
    ensures r.Some? ==> 1 <= r.value <= 12
  {
    if |t| <= 2 && IsDigitString(t) && 1 <= DigitsValue(t) <= 12 then Some(DigitsValue(t)) else None
  }

  /** A named month field: exactly the three letters of a month name, in any case. */
  ghost function MonthNameValue(t: string): (r: Option<nat>)
    ensures r.Some? ==> 1 <= r.value <= 12 && |t| == 3 && NameAt(t, 0, r.value - 1)
  {
    if |t| == 3 && exists k :: 0 <= k < 12 && NameAt(t, 0, k) then
      var k :| 0 <= k < 12 && NameAt(t, 0, k);
      Some(k + 1)
    else None
  }

  /** A month field, numeric when it is all digits (`month.isdigit()`), a name otherwise. */
  ghost function MonthValue(t: string): Option<nat> {
    if IsDigitString(t) then MonthNumberValue(t) else MonthNameValue(t)
  }

  /** A year field: four digits. */
  function YearValue(t: string): Option<nat> {
    if |t| == 4 && IsDigitString(t) then Some(DigitsValue(t)) else None
  }

  /** `%d` reads a whole day field exactly when it has a day value, and reads that value. */
  lemma DayRead(t: string)
    ensures WholeValue(DayPieces(t, 0), |t|) == DayValue(t)
  {
    if |t| == 1 {
      DayReadOne(t);
    } else if |t| == 2 && IsDigitString(t) {
      DayReadDigits(t);
    } else if |t| == 2 {
      DayReadSpace(t);
    } else {
      var ps := DayPieces(t, 0);
      assert forall k :: 0 <= k < |ps| ==> ps[k].len <= 2;
      WholeNone(ps, |t|);
    }
  }

  /** The first alternative covers the field: it is the one read. */
  lemma WholeFirst(ps: seq<Piece>, n: nat)
    requires |ps| > 0 && ps[0].len == n
    ensures WholeValue(ps, n) == Some(ps[0].value)
  {
  }

  /** No alternative covers the field: nothing is read. */
  lemma WholeNone(ps: seq<Piece>, n: nat)
    requires forall k :: 0 <= k < |ps| ==> ps[k].len != n
    ensures WholeValue(ps, n) == None
  {
  }

  lemma DayReadOne(t: string)
    requires |t| == 1
    ensures WholeValue(DayPieces(t, 0), 1) == DayValue(t)
  {
    var ps := DayPieces(t, 0);
    if NonZero(t[0]) {
      assert ps == [Piece(1, Digit(t[0]))];
      WholeFirst(ps, 1);
    } else {
      assert ps == [];
    }
  }

  lemma DayReadDigits(t: string)
    requires |t| == 2 && IsDigitString(t)
    ensures WholeValue(DayPieces(t, 0), 2) == DayValue(t)
  {
    var ps := DayPieces(t, 0);
    DigitsTwo(t);
    if (t[0] == '0' && NonZero(t[1])) || ('1' <= t[0] <= '2') || (t[0] == '3' && t[1] <= '1') {
      assert ps[0] == Piece(2, DigitsValue(t));
      WholeFirst(ps, 2);
    } else {
      assert forall k :: 0 <= k < |ps| ==> ps[k].len == 1;
      WholeNone(ps, 2);
    }
  }

  lemma DayReadSpace(t: string)
    requires |t| == 2 && !IsDigitString(t)
    ensures WholeValue(DayPieces(t, 0), 2) == DayValue(t)
  {
    var ps := DayPieces(t, 0);
    if t[0] == ' ' && NonZero(t[1]) {
      assert ps == [Piece(2, Digit(t[1]))];
      WholeFirst(ps, 2);
    } else {
      assert forall k :: 0 <= k < |ps| ==> ps[k].len == 1;
      WholeNone(ps, 2);
    }
  }

  /** `%m` reads a whole numeric month field exactly when it has a month value, and reads that value. */
  lemma MonthNumberRead(t: string)
    requires IsDigitString(t)
    ensures WholeValue(MonthNumberPieces(t, 0), |t|) == MonthNumberValue(t)
  {
    if |t| == 1 {
      MonthReadOne(t);
    } else if |t| == 2 {
      MonthReadTwo(t);
    } else {
      var ps := MonthNumberPieces(t, 0);
      assert forall k :: 0 <= k < |ps| ==> ps[k].len <= 2;
      WholeNone(ps, |t|);
    }
  }

  lemma MonthReadOne(t: string)
    requires |t| == 1 && IsDigitString(t)
    ensures WholeValue(MonthNumberPieces(t, 0), 1) == MonthNumberValue(t)
  {
    var ps := MonthNumberPieces(t, 0);
    DigitsOne(t);
    if NonZero(t[0]) {
      assert ps == [Piece(1, Digit(t[0]))];
      WholeFirst(ps, 1);
    } else {
      assert ps == [];
    }
  }

  lemma MonthReadTwo(t: string)
    requires |t| == 2 && IsDigitString(t)
    ensures WholeValue(MonthNumberPieces(t, 0), 2) == MonthNumberValue(t)
  {
    var ps := MonthNumberPieces(t, 0);
    DigitsTwo(t);
    if (t[0] == '1' && t[1] <= '2') || (t[0] == '0' && NonZero(t[1])) {
      assert ps[0] == Piece(2, DigitsValue(t));
      WholeFirst(ps, 2);
    } else {
      assert forall k :: 0 <= k < |ps| ==> ps[k].len == 1;
      WholeNone(ps, 2);
    }
  }

  /** A field in which no month name is found: neither `%b` nor the month-name value reads it. */
  lemma NoNameRead(t: string)
    requires NameFrom(t, 0, 0).None?
    ensures WholeValue(MonthNamePieces(t, 0), |t|) == MonthNameValue(t) == None
  {
    assert MonthNamePieces(t, 0) == [];
  }

  /** A field that spells the name of month `k + 1` where `%b` has that single alternative: both read it as that month when it is all of the field. */
  lemma FoundNameRead(t: string, k: nat, ps: seq<Piece>)
    requires k < 12 && NameAt(t, 0, k) && ps == [Piece(3, k + 1)]
    ensures WholeValue(ps, |t|) == MonthNameValue(t)
  {
    if |t| == 3 {
      WholeFirst(ps, 3);
      FoundNameValue(t, k);
    } else {
      WholeNone(ps, |t|);
      ShortNameValue(t);
    }
  }

  lemma ShortNameValue(t: string)
    requires |t| != 3
    ensures MonthNameValue(t) == None
  {
  }

  lemma FoundPieces(t: string, k: nat)
    requires NameFrom(t, 0, 0) == Some(k)
    ensures MonthNamePieces(t, 0) == [Piece(3, k + 1)]
  {
  }

  /** A three-character field that spells the name of month `k + 1` has that month as value. */
  lemma FoundNameValue(t: string, k: nat)
    requires |t| == 3 && k < 12 && NameAt(t, 0, k)
    ensures MonthNameValue(t) == Some(k + 1)
  {
    var r := MonthNameValue(t);
    assert r.Some?;
    NameUnique(t, 0, r.value - 1, k);
  }

  /** `%b` reads a whole month-name field exactly when it spells a month, and reads that month. */
  lemma MonthNameRead(t: string)
    ensures WholeValue(MonthNamePieces(t, 0), |t|) == MonthNameValue(t)
  {
    match NameFrom(t, 0, 0)
    case None => NoNameRead(t);
    case Some(k) =>
      FoundPieces(t, k);
      FoundNameRead(t, k, MonthNamePieces(t, 0));
  }

  /** `%Y` on a field of four characters reads it exactly when it is four digits, as their value. */
  lemma YearRead(t: string)
    ensures (if |t| == 4 then YearAt(t, 0) else None) == YearValue(t)
  {
    if |t| == 4 && IsDigitString(t) {
      DigitsFour(t);
    }
  }

  /** The field-by-field reading is: the day, month and year values, if all three exist and make a date. */
  lemma ParseFieldsMeaning(f: Fields)
    ensures ParseFields(f) ==
      if && DayValue(f.day).Some? && MonthValue(f.month).Some? && YearValue(f.year).Some?
         && ValidDate(Date(YearValue(f.year).value, MonthValue(f.month).value, DayValue(f.day).value))
      then Success(Date(YearValue(f.year).value, MonthValue(f.month).value, DayValue(f.day).value))
      else Failure(ValueError)
  {
    DayRead(f.day);
    if IsDigitString(f.month) {
      MonthNumberRead(f.month);
    } else {
      MonthNameRead(f.month);
    }
    YearRead(f.year);
  }

  /** The fields are read as date `d` exactly when they spell its day, month and year and `d` exists. */
  lemma ParseFieldsExact(f: Fields, d: Date)
    ensures ParseFields(f) == Success(d) <==>
      DayValue(f.day) == Some(d.day) && MonthValue(f.month) == Some(d.month) && YearValue(f.year) == Some(d.year)
      && ValidDate(d)
  {
    ParseFieldsMeaning(f);
  }

  // ---------------------------------------------------------------------------
  // What the two readings do

  /** Day 1, month "12", year 2014, read field by field: 1 December 2014. */
  lemma FirstOfDecember()
    ensures ParseFields(Fields("1", "12", "2014")) == Success(Date(2014, 12, 1))
  {
  }

  /** The concatenation "1122014" of the same fields is read as 11 February 2014. */
  lemma ConcatenationMisreads()
    ensures ParseConcatenated(Fields("1", "12", "2014")) == Success(Date(2014, 2, 11))
    ensures ParseFields(Fields("1", "12", "2014")) == Success(Date(2014, 12, 1))
  {
    FirstOfDecember();
    var s := "1" + "12" + "2014";
    assert s == "1122014";
    assert DayPieces(s, 0) == [Piece(2, 11), Piece(1, 1)];
    assert MonthPieces(s, 2, true) == [Piece(1, 2)];
    assert YearAt(s, 3) == Some(2014);
  }

  /** The pieces at `i` depend only on the two characters there (and on whether there are two). */
  lemma DayPiecesLocal(s: string, i: nat, t: string, j: nat)
    requires i + 1 < |s| && j + 1 < |t| && s[i] == t[j] && s[i + 1] == t[j + 1]
    ensures DayPieces(s, i) == DayPieces(t, j)
  {
  }

  lemma MonthNumberPiecesLocal(s: string, i: nat, t: string, j: nat)
    requires i + 1 < |s| && j + 1 < |t| && s[i] == t[j] && s[i + 1] == t[j + 1]
    ensures MonthNumberPieces(s, i) == MonthNumberPieces(t, j)
  {
  }

  /** When `%d` reads a two-character field whole, its first alternative already does. */
  lemma DayFirstPiece(t: string)
    requires |t| == 2 && WholeValue(DayPieces(t, 0), 2).Some?
    ensures |DayPieces(t, 0)| > 0 && DayPieces(t, 0)[0].len == 2
    ensures WholeValue(DayPieces(t, 0), 2) == Some(DayPieces(t, 0)[0].value)
  {
  }

  /** When `%m` reads a two-character field whole, its first alternative already does. */
  lemma MonthFirstPiece(t: string)
    requires |t| == 2 && WholeValue(MonthNumberPieces(t, 0), 2).Some?
    ensures |MonthNumberPieces(t, 0)| > 0 && MonthNumberPieces(t, 0)[0].len == 2
    ensures WholeValue(MonthNumberPieces(t, 0), 2) == Some(MonthNumberPieces(t, 0)[0].value)
  {
  }

  /** The year field read inside the concatenation of the three fields is the year field read alone. */
  lemma YearOfFields(f: Fields)
    requires |f.year| == 4
    ensures YearAt(f.day + f.month + f.year, |f.day| + |f.month|) == YearAt(f.year, 0)
  {
    var s := f.day + f.month + f.year;
    var i := |f.day| + |f.month|;
    assert s[i..i + 4] == f.year;
    YearLocal(s, i, f.year);
  }

  /** The year four characters into the concatenation is the year field. */
  lemma YearLocal(s: string, i: nat, t: string)
    requires |t| == 4 && i + 4 <= |s| && s[i..i + 4] == t
    ensures YearAt(s, i) == YearAt(t, 0)
  {
    assert s[i] == t[0] && s[i + 1] == t[1] && s[i + 2] == t[2] && s[i + 3] == t[3];
  }

  /**
    With a two-digit day and a two-digit numeric month, the concatenation is read as intended:
    whenever the fields make a date, `strptime` of the concatenated text gives that date.
  */
  lemma PaddedFieldsAgree(f: Fields)
    requires |f.day| == 2 && |f.month| == 2 && IsDigitString(f.month)
    requires ParseFields(f).Success?
    ensures ParseConcatenated(f) == ParseFields(f)
  {
    var s := f.day + f.month + f.year;
    assert |f.year| == 4;
    DayPiecesLocal(s, 0, f.day, 0);
    MonthNumberPiecesLocal(s, 2, f.month, 0);
    YearOfFields(f);
    DayFirstPiece(f.day);
    MonthFirstPiece(f.month);
  }

  lemma {:induction false} NameFromLocal(s: string, i: nat, t: string, j: nat, k: nat)
    requires k <= 12 && i + 3 <= |s| && j + 3 <= |t|
    requires s[i] == t[j] && s[i + 1] == t[j + 1] && s[i + 2] == t[j + 2]
    ensures NameFrom(s, i, k) == NameFrom(t, j, k)
    decreases 12 - k
  {
    if k < 12 {
      NameFromLocal(s, i, t, j, k + 1);
    }
  }

  /** No month name starts with a digit or a space. */
  lemma NameStartsWithLetter(s: string, i: nat, k: nat)
    requires k < 12 && NameAt(s, i, k)
    ensures !IsAsciiDigit(s[i]) && s[i] != ' '
  {
  }

  /**
    With a month name, the concatenation is read as intended whatever the day's width: the
    character after the day is a letter, so no two-character day alternative can match.
  */
  lemma NamedMonthAgrees(f: Fields)
    requires !IsDigitString(f.month)
    requires ParseFields(f).Success?
    ensures ParseConcatenated(f) == ParseFields(f)
  {
    var s := f.day + f.month + f.year;
    var n := |f.day|;
    assert |f.month| == 3 && |f.year| == 4;
    var k := NameFrom(f.month, 0, 0).value;
    NameFromLocal(s, n, f.month, 0, 0);
    NameStartsWithLetter(f.month, 0, k);
    assert s[n] == f.month[0];
    YearOfFields(f);
    if n == 2 {
      DayPiecesLocal(s, 0, f.day, 0);
      DayFirstPiece(f.day);
    } else {
      assert n == 1 && NonZero(f.day[0]);
      OneDigitDay(f);
    }
  }

  /** A one-digit day followed by a letter is read alone in the concatenation. */
  lemma OneDigitDay(f: Fields)
    requires |f.day| == 1 && NonZero(f.day[0]) && |f.month| > 0 && !IsAsciiDigit(f.month[0]) && f.month[0] != ' '
    ensures DayPieces(f.day + f.month + f.year, 0) == [Piece(1, Digit(f.day[0]))]
  {
    var s := f.day + f.month + f.year;
    assert s[0] == f.day[0] && s[1] == f.month[0];
  }

  /** The two-digit numeral of month `m`, as PubMed writes numeric months. */
  function Numeral(m: nat): (r: string)
    requires 1 <= m <= 12
    ensures |r| == 2 && IsDigitString(r)
  {
    if m < 10 then ['0', ('0' as int + m) as char] else ['1', ('0' as int + m - 10) as char]
  }

  /** `%m` reads the numeral of month `m` whole, as month `m`. */
  lemma NumeralRead(m: nat)
    requires 1 <= m <= 12
    ensures WholeValue(MonthPieces(Numeral(m), 0, true), 2) == Some(m)
  {
    var t := Numeral(m);
    if m < 10 {
      assert MonthNumberPieces(t, 0) == [Piece(2, m)];
    } else {
      assert MonthNumberPieces(t, 0)[0] == Piece(2, m);
    }
  }

  /** At most one month name can be spelt at a position: the twelve names are distinct. */
  lemma NameUnique(s: string, i: nat, n: nat, m: nat)
    requires n < 12 && m < 12 && NameAt(s, i, n) && NameAt(s, i, m)
    ensures n == m
  {
    assert MonthNames[n][0] == MonthNames[m][0] && MonthNames[n][1] == MonthNames[m][1]
      && MonthNames[n][2] == MonthNames[m][2];
  }

  /** The search from `k` finds the name spelt at `i`, when its index is `k` or later. */
  lemma {:induction false} NameFromFinds(s: string, i: nat, k: nat, m: nat)
    requires k <= m < 12 && NameAt(s, i, m)
    ensures NameFrom(s, i, k) == Some(m)
    decreases m - k
  {
    if NameAt(s, i, k) {
      NameUnique(s, i, k, m);
    } else {
      NameFromFinds(s, i, k + 1, m);
    }
  }

  /** `%b` reads a three-character name of month `m`, in any case, as month `m`. */
  lemma NameRead(m: nat, name: string)
    requires 1 <= m <= 12 && |name| == 3 && NameAt(name, 0, m - 1)
    ensures !IsDigitString(name) && WholeValue(MonthPieces(name, 0, false), 3) == Some(m)
  {
    NameStartsWithLetter(name, 0, m - 1);
    NameFromFinds(name, 0, 0, m - 1);
  }

  /** Month `m` read from its numeral and from its name (in any case) is the same month. */
  lemma NumeralAndName(m: nat, name: string)
    requires 1 <= m <= 12 && |name| == 3 && NameAt(name, 0, m - 1)
    ensures WholeValue(MonthPieces(Numeral(m), 0, true), 2) == Some(m)
    ensures !IsDigitString(name) && WholeValue(MonthPieces(name, 0, false), 3) == Some(m)
  {
    NumeralRead(m);
    NameRead(m, name);
  }

  /** The numeral of month `m` and each spelling of its name have `m` as their month value. */
  lemma MonthValueForms(m: nat, name: string)
    requires 1 <= m <= 12 && |name| == 3 && NameAt(name, 0, m - 1)
    ensures MonthValue(Numeral(m)) == Some(m) && MonthValue(name) == Some(m)
  {
    NumeralAndName(m, name);
    MonthNumberRead(Numeral(m));
    MonthNameRead(name);
  }

  /**
    Fields that spell day `d`, month `m` (as its numeral or its name) and year `y` are read as that
    date exactly when it is a calendar date, and give `ValueError` otherwise.
  */
  lemma SpelledDateRead(day: string, m: nat, name: string, year: string, d: Date)
    requires 1 <= m <= 12 && |name| == 3 && NameAt(name, 0, m - 1)
    requires DayValue(day) == Some(d.day) && d.month == m && YearValue(year) == Some(d.year)
    ensures ParseFields(Fields(day, Numeral(m), year)) == if ValidDate(d) then Success(d) else Failure(ValueError)
    ensures ParseFields(Fields(day, name, year)) == if ValidDate(d) then Success(d) else Failure(ValueError)
  {
    MonthValueForms(m, name);
    ParseFieldsMeaning(Fields(day, Numeral(m), year));
    ParseFieldsMeaning(Fields(day, name, year));
  }

  /** Whatever the day and year, the numeral and the name of a month give the same outcome. */
  lemma MonthFormsAgree(day: string, year: string, m: nat, name: string)
    requires 1 <= m <= 12 && |name| == 3 && NameAt(name, 0, m - 1)
    ensures ParseFields(Fields(day, Numeral(m), year)) == ParseFields(Fields(day, name, year))
  {
    NumeralAndName(m, name);
  }

  /** Day 26, month "11", year 2014, read field by field: 26 November 2014. */
  lemma November26Numeric()
    ensures ParseFields(Fields("26", "11", "2014")) == Success(Date(2014, 11, 26))
  {
  }

  /** Day 26, month "Nov", year 2014, read field by field: the same date as with "11". */
  lemma November26Named()
    ensures ParseFields(Fields("26", "Nov", "2014")) == Success(Date(2014, 11, 26))
  {
    assert Numeral(11) == "11";
    MonthFormsAgree("26", "2014", 11, "Nov");
    November26Numeric();
  }

  /** Day 26, month "11" or "Nov", year 2014: the concatenation reads 26 November 2014 too. */
  lemma November26()
    ensures ParseConcatenated(Fields("26", "11", "2014")) == Success(Date(2014, 11, 26))
    ensures ParseConcatenated(Fields("26", "Nov", "2014")) == Success(Date(2014, 11, 26))
  {
    November26Numeric();
    November26Named();
    PaddedFieldsAgree(Fields("26", "11", "2014"));
    NamedMonthAgrees(Fields("26", "Nov", "2014"));
  }
}
