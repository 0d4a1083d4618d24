/**
  `Newsletter` (LeadEntry/leadentry.py): the campaign metadata read from the newsletter's page title,
  and `write_csv`, which flattens every article's authors into one CSV row each, merging the author's,
  the article's and the newsletter's `info` dictionaries.
*/
module Newsletter {
  import opened Wrappers
  import opened Text
  import opened Dates
  import opened Authors
  import opened Articles

  // ---------------------------------------------------------------------------
  // The volume: `re.findall('\d+.\d+', text)[0]`

  /** Every character of `s[i..j]` is an ASCII digit (`\d` without `re.UNICODE`). */
  predicate Digits(s: string, i: nat, j: nat) {
    i <= j <= |s| && forall m :: i <= m < j ==> IsAsciiDigit(s[m])
  }

  /** Length of the longest run of digits at `i` (a greedy `\d+` takes all of it first). */
  function DigitRun(s: string, i: nat): (n: nat)
    requires i <= |s|
    ensures Digits(s, i, i + n)
    ensures i + n == |s| || !IsAsciiDigit(s[i + n])
    decreases |s| - i
  {
    if i < |s| && IsAsciiDigit(s[i]) then 1 + DigitRun(s, i + 1) else 0
  }

  /** A match of `\d+.\d+`: digits `s[start..cut]`, any character but a newline at `cut`, digits up to `end`. */
  datatype Volume = Volume(start: nat, cut: nat, end: nat)

  predicate IsVolume(s: string, v: Volume) {
    && v.start < v.cut && v.cut + 1 < v.end <= |s|
    && Digits(s, v.start, v.cut) && s[v.cut] != '\n' && Digits(s, v.cut + 1, v.end)
  }

  /** Some match starting at `i` has its `.` at `c`. */
  predicate CutAt(s: string, i: nat, c: nat) {
    i < c && c + 1 < |s| && Digits(s, i, c) && s[c] != '\n' && IsAsciiDigit(s[c + 1])
  }

  /**
    The match at `i` with its `.` at `c` or before: the first `\d+` gives back one digit at a time,
    from the longest run, until a `.` and a second `\d+` (greedy) can follow.
  */
  function VolumeFrom(s: string, i: nat, c: nat): (r: Option<Volume>)
    requires Digits(s, i, c)
    ensures r.Some? ==> IsVolume(s, r.value) && r.value.start == i && r.value.cut <= c
    ensures r.Some? ==> r.value.end == |s| || !IsAsciiDigit(s[r.value.end])
    ensures r.Some? ==> forall d: nat :: r.value.cut < d <= c ==> !CutAt(s, i, d)
    ensures r.None? ==> forall d: nat :: d <= c ==> !CutAt(s, i, d)
    decreases c
  {
    if c <= i then None
    else if c + 1 < |s| && s[c] != '\n' && IsAsciiDigit(s[c + 1]) then
      Some(Volume(i, c, c + 1 + DigitRun(s, c + 1)))
    else VolumeFrom(s, i, c - 1)
  }

  /** `re.match('\d+.\d+', s[i..])` as a span of `s`. */
  function VolumeAt(s: string, i: nat): (r: Option<Volume>)
    requires i <= |s|
  {
    VolumeFrom(s, i, i + DigitRun(s, i))
  }

  /**
    What the backtracking match at `i` is: the `.` as far right as any match puts it, and the second
    run of digits taken whole. No match at `i` exactly when no cut works there.
  */
  lemma VolumeAtMeaning(s: string, i: nat)
    requires i <= |s|
    ensures var r := VolumeAt(s, i);
      && (r.None? <==> forall c: nat :: !CutAt(s, i, c))
      && (r.Some? ==>
            && IsVolume(s, r.value) && r.value.start == i && CutAt(s, i, r.value.cut)
            && (r.value.end == |s| || !IsAsciiDigit(s[r.value.end]))
            && forall c: nat :: r.value.cut < c ==> !CutAt(s, i, c))
  {
    var n := DigitRun(s, i);
    var r := VolumeAt(s, i);
    assert forall c: nat :: CutAt(s, i, c) ==> c <= i + n;
    if r.Some? {
      assert IsAsciiDigit(s[r.value.cut + 1]);
      assert CutAt(s, i, r.value.cut);
    }
  }

  /** The leftmost match at or after `i`: the first element of `re.findall`. */
  function FirstVolume(s: string, i: nat): (r: Option<Volume>)
    requires i <= |s|
    ensures r.Some? ==> i <= r.value.start <= |s| && VolumeAt(s, r.value.start) == r
    ensures r.Some? ==> forall k :: i <= k < r.value.start ==> VolumeAt(s, k).None?
    ensures r.None? ==> forall k :: i <= k <= |s| ==> VolumeAt(s, k).None?
    decreases |s| - i
  {
    if VolumeAt(s, i).Some? then VolumeAt(s, i)
    else if i == |s| then None
    else FirstVolume(s, i + 1)
  }

  // ---------------------------------------------------------------------------
  // The campaign metadata

  const Separator := " - "

  /**
    `find_specific_lead_source` on the page title: the title split on `" - "`, the first volume-like
    number in the first part, then `"{second part} {volume}"`. A title without a separator, or
    without such a number before it, raises `IndexError`.
  */
  function SpecificLeadSource(title: string): (r: Result<string, Raised>)
    ensures r.Failure? ==> r.error == IndexError
  {
    var parts := Split(title, Separator);
    var vol := FirstVolume(parts[0], 0);
    if |parts| < 2 || vol.None? then Failure(IndexError)
    else Success(parts[1] + " " + parts[0][vol.value.start..vol.value.end])
  }

  /**
    The lead source is found exactly when the title has a separator and a volume before it; it is
    the text after the first separator up to the next one, a space, and the leftmost volume of the
    text before the first separator.
  */
  lemma SpecificLeadSourceMeaning(title: string)
    ensures var first := IndexOf(title, Separator, 0);
      && (SpecificLeadSource(title).Success? <==> first < |title| && FirstVolume(title[..first], 0).Some?)
      && (SpecificLeadSource(title).Success? ==>
            var head, rest := title[..first], title[first + 3..];
            var v := FirstVolume(head, 0).value;
            SpecificLeadSource(title).value == rest[..IndexOf(rest, Separator, 0)] + " " + head[v.start..v.end])
  {
    SplitHead(title, Separator);
    SplitSecond(title, Separator);
  }

  /** A four-digit number is a volume too: `\d+` gives back digits until `.` can take one. */
  lemma YearIsVolume()
    ensures VolumeAt("2014", 0) == Some(Volume(0, 2, 4))
  {
    assert DigitRun("2014", 0) == 4;
  }

  /** In "v2.1 - N" the first separator is at 4, and none follows it. */
  lemma ExampleSeparators()
    ensures IndexOf("v2.1 - N", Separator, 0) == 4
    ensures IndexOf("N", Separator, 0) == 1
  {
    var t := "v2.1 - N";
    forall k: nat | k < 4
      ensures !OccursAt(t, Separator, k)
    {
      assert t[k..k + 3][1] == t[k + 1] != '-';
    }
    assert t[4..7] == Separator;
  }

  /** The volume of "v2.1" is "2.1", found at 1. */
  lemma ExampleVolume()
    ensures FirstVolume("v2.1", 0) == Some(Volume(1, 2, 4))
  {
    var head := "v2.1";
    assert VolumeAt(head, 0) == None;
    assert DigitRun(head, 1) == 1;
  }

  /** The pieces of "v2.1 - N" that the lead source is made of. */
  lemma ExampleParts()
    ensures "v2.1 - N"[..4] == "v2.1" && "v2.1 - N"[7..] == "N"
    ensures "N"[..1] + " " + "v2.1"[1..4] == "N 2.1"
  {
    assert "v2.1"[1..4] == "2.1";
  }

  /** "v2.1 - N" gives "N 2.1". */
  lemma LeadSourceExample()
    ensures SpecificLeadSource("v2.1 - N") == Success("N 2.1")
  {
    var t := "v2.1 - N";
    ExampleSeparators();
    ExampleVolume();
    ExampleParts();
    SpecificLeadSourceMeaning(t);
  }

  // ---------------------------------------------------------------------------
  // The newsletter's `info`

  /** The newsletter's `info`, key by key. */
  datatype NewsletterInfo = NewsletterInfo(
    leadSource: string,   // 'Lead Source'
    specific: string,     // 'Specific Lead Source'
    link: string,         // 'Newsletter Archived Link'
    searchTerm: string)   // 'Search Term'

  const LeadSourceName := "Connexon"

  /** The `info` set up from the page's address and title; it raises when the lead source does. */
  function InfoOf(url: string, title: string): (r: Result<NewsletterInfo, Raised>)
    ensures r.Success? <==> SpecificLeadSource(title).Success?
    ensures r.Failure? ==> r.error == IndexError
    ensures r.Success? ==>
      && r.value.leadSource == LeadSourceName && r.value.link == url
      && r.value.specific == SpecificLeadSource(title).value
      && r.value.searchTerm == r.value.leadSource + "; " + r.value.specific
  {
    match SpecificLeadSource(title)
    case Failure(e) => Failure(e)
    case Success(specific) =>
      Success(NewsletterInfo(LeadSourceName, specific, url, LeadSourceName + "; " + specific))
  }

  // ---------------------------------------------------------------------------
  // Rows

  /** The keys of the three `info` dictionaries. */
  datatype Key =
    | FirstNameKey | LastNameKey | AffKey | CompanyKey | DepartmentKey | EmailKey
    | TitleKey | DateKey | LinkKey
    | LeadSourceKey | SpecificKey | ArchivedLinkKey | SearchTermKey

  /** The key as the dictionaries spell it, which is also the column's name in the header. */
  function Name(k: Key): string {
    match k
    case FirstNameKey => "First Name"
    case LastNameKey => "Last Name"
    case AffKey => "Aff"
    case CompanyKey => "Company"
    case DepartmentKey => "Department"
    case EmailKey => "Email"
    case TitleKey => "Article Title"
    case DateKey => "Publication Date"
    case LinkKey => "Publication Link"
    case LeadSourceKey => "Lead Source"
    case SpecificKey => "Specific Lead Source"
    case ArchivedLinkKey => "Newsletter Archived Link"
    case SearchTermKey => "Search Term"
  }

  /** A value of a row: text, or the `struct_time` of the publication date. */
  datatype Value = Text(string) | When(Date)

  /** A dictionary handed to `writerow`. */
  type Row = map<Key, Value>

  function AuthorRow(a: AuthorInfo): Row {
    map[FirstNameKey := Text(a.firstName), LastNameKey := Text(a.lastName), AffKey := Text(a.aff),
        CompanyKey := Text(a.company), DepartmentKey := Text(a.department), EmailKey := Text(a.email)]
  }

  function ArticleRow(i: ArticleInfo): Row {
    map[TitleKey := Text(i.title), DateKey := When(i.date), LinkKey := Text(i.link)]
  }

  function NewsletterRow(n: NewsletterInfo): Row {
    map[LeadSourceKey := Text(n.leadSource), SpecificKey := Text(n.specific),
        ArchivedLinkKey := Text(n.link), SearchTermKey := Text(n.searchTerm)]
  }
  /** `dict(author.items() + article.items() + newsletter.items())`: a later pair replaces an earlier one. */
  function Merge(author: Row, article: Row, newsletter: Row): Row {
    author + article + newsletter
  }

  /** The merged row has every key of the three, and takes each from the last dictionary that has it. */
  lemma MergePrecedence(author: Row, article: Row, newsletter: Row)
    ensures var r := Merge(author, article, newsletter);
      && r.Keys == author.Keys + article.Keys + newsletter.Keys
      && (forall k :: k in newsletter ==> r[k] == newsletter[k])
      && (forall k :: k in article && k !in newsletter ==> r[k] == article[k])
      && (forall k :: k in author && k !in article && k !in newsletter ==> r[k] == author[k])
  {
  }

  /** The row written for author `a` of an article with `info` `i`. */
  function RowOf(a: AuthorInfo, i: ArticleInfo, n: NewsletterInfo): Row {
    Merge(AuthorRow(a), ArticleRow(i), NewsletterRow(n))
  }

  /** The value each key has in its own dictionary. */
  function Column(k: Key, a: AuthorInfo, i: ArticleInfo, n: NewsletterInfo): Value {
    match k
    case FirstNameKey => Text(a.firstName)
    case LastNameKey => Text(a.lastName)
    case AffKey => Text(a.aff)
    case CompanyKey => Text(a.company)
    case DepartmentKey => Text(a.department)
    case EmailKey => Text(a.email)
    case TitleKey => Text(i.title)
    case DateKey => When(i.date)
    case LinkKey => Text(i.link)
    case LeadSourceKey => Text(n.leadSource)
    case SpecificKey => Text(n.specific)
    case ArchivedLinkKey => Text(n.link)
    case SearchTermKey => Text(n.searchTerm)
  }

  /** Which dictionary each key comes from. */
  predicate AuthorKey(k: Key) {
    k.FirstNameKey? || k.LastNameKey? || k.AffKey? || k.CompanyKey? || k.DepartmentKey? || k.EmailKey?
  }

  predicate ArticleKey(k: Key) {
    k.TitleKey? || k.DateKey? || k.LinkKey?
  }

  /** The dictionaries have exactly their own keys. */
  lemma RowKeys(a: AuthorInfo, i: ArticleInfo, n: NewsletterInfo, k: Key)
    ensures k in AuthorRow(a) <==> AuthorKey(k)
    ensures k in ArticleRow(i) <==> ArticleKey(k)
    ensures k in NewsletterRow(n) <==> !AuthorKey(k) && !ArticleKey(k)
  {
  }

  /** A key's value in its own dictionary. */
  lemma OwnValue(a: AuthorInfo, i: ArticleInfo, n: NewsletterInfo, k: Key)
    ensures AuthorKey(k) ==> AuthorRow(a)[k] == Column(k, a, i, n)
    ensures ArticleKey(k) ==> ArticleRow(i)[k] == Column(k, a, i, n)
    ensures !AuthorKey(k) && !ArticleKey(k) ==> NewsletterRow(n)[k] == Column(k, a, i, n)
  {
  }

  /** The three dictionaries share no key, so the row has every key, each with its own source's value. */
  lemma RowValues(a: AuthorInfo, i: ArticleInfo, n: NewsletterInfo)
    ensures forall k :: k in RowOf(a, i, n) && RowOf(a, i, n)[k] == Column(k, a, i, n)
  {
    forall k
      ensures k in RowOf(a, i, n) && RowOf(a, i, n)[k] == Column(k, a, i, n)
    {
      RowKeys(a, i, n, k);
      OwnValue(a, i, n, k);
      MergePrecedence(AuthorRow(a), ArticleRow(i), NewsletterRow(n));
    }
  }

  /** The rows of one article, one per author, in order. */
  function ArticleRows(rec: Record, n: NewsletterInfo): seq<Row> {
    seq(|rec.authors|, j requires 0 <= j < |rec.authors| => RowOf(rec.authors[j], rec.info, n))
  }

  /** The rows of the nested loop of `write_csv`: article by article, author by author. */
  function Rows(recs: seq<Record>, n: NewsletterInfo): seq<Row>
    decreases |recs|
  {
    if recs == [] then [] else Rows(recs[..|recs| - 1], n) + ArticleRows(recs[|recs| - 1], n)
  }

  /** How many authors the records have between them. */
  function AuthorCount(recs: seq<Record>): nat
    decreases |recs|
  {
    if recs == [] then 0 else AuthorCount(recs[..|recs| - 1]) + |recs[|recs| - 1].authors|
  }

  /** One row per (article, author) pair. */
  lemma {:induction false} RowsCount(recs: seq<Record>, n: NewsletterInfo)
    ensures |Rows(recs, n)| == AuthorCount(recs)
    decreases |recs|
  {
    if recs != [] {
      RowsCount(recs[..|recs| - 1], n);
    }
  }

  /** The counts of a prefix only grow. */
  lemma {:induction false} AuthorCountPrefix(recs: seq<Record>, a: nat)
    requires a < |recs|
    ensures AuthorCount(recs[..a]) + |recs[a].authors| <= AuthorCount(recs)
    decreases |recs|
  {
    if a < |recs| - 1 {
      assert recs[..|recs| - 1][..a] == recs[..a];
      AuthorCountPrefix(recs[..|recs| - 1], a);
    } else {
      assert a == |recs| - 1;
    }
  }

  /**
    Article-then-author order: the rows of article `a` come after those of every earlier article,
    and row `j` among them is author `j`'s, merged with article `a`'s and the newsletter's `info`.
  */
  lemma {:induction false} RowsOrder(recs: seq<Record>, n: NewsletterInfo, a: nat, j: nat)
    requires a < |recs| && j < |recs[a].authors|
    ensures AuthorCount(recs[..a]) + j < |Rows(recs, n)|
    ensures Rows(recs, n)[AuthorCount(recs[..a]) + j] == RowOf(recs[a].authors[j], recs[a].info, n)
    decreases |recs|
  {
    var init := recs[..|recs| - 1];
    RowsCount(recs, n);
    RowsCount(init, n);
    AuthorCountPrefix(recs, a);
    if a < |recs| - 1 {
      assert init[..a] == recs[..a];
      RowsOrder(init, n, a, j);
    } else {
      assert recs[..a] == init;
    }
  }

  // ---------------------------------------------------------------------------
  // The CSV writer

  /** The columns of the file, in order (`field_names`). */
  const FieldNames: seq<Key> := [FirstNameKey, LastNameKey, EmailKey, CompanyKey, DepartmentKey,
    LeadSourceKey, SpecificKey, ArchivedLinkKey, SearchTermKey, DateKey, LinkKey, TitleKey]

  /** `writeheader`: the column names. */
  function HeaderLine(): seq<Value> {
    seq(|FieldNames|, k requires 0 <= k < |FieldNames| => Text(Name(FieldNames[k])))
  }

  /** The line of a row with the keys that are not columns ignored, and `''` for a missing column. */
  function Line(row: Row): seq<Value> {
    seq(|FieldNames|, k requires 0 <= k < |FieldNames| =>
      if FieldNames[k] in row then row[FieldNames[k]] else Text(""))
  }

  /** As written, `DictWriter(csv_file, fieldnames=...)` keeps `extrasaction='raise'`: a row with a key that is no column raises. */
  function LineAsWritten(row: Row): Result<seq<Value>, Raised> {
    if exists key :: key in row && key !in FieldNames then Failure(ValueError) else Success(Line(row))
  }

  /** Every row carries the author's `'Aff'`, which is no column: as written, the first `writerow` raises. */
  lemma EveryRowRejected(a: AuthorInfo, i: ArticleInfo, n: NewsletterInfo)
    ensures LineAsWritten(RowOf(a, i, n)) == Failure(ValueError)
  {
    assert AffKey in RowOf(a, i, n) && AffKey !in FieldNames;
  }

  /**
    Written with the extra key ignored, the line of a row holds every column, each from its own
    source, in the order of the header: no column is left empty for want of a key.
  */
  lemma LineKeepsFields(a: AuthorInfo, i: ArticleInfo, n: NewsletterInfo)
    ensures var line := Line(RowOf(a, i, n));
      |line| == |FieldNames| && forall j :: 0 <= j < |line| ==> line[j] == Column(FieldNames[j], a, i, n)
  {
    RowValues(a, i, n);
  }

  /** The lines written for a list of rows. */
  function Lines(rows: seq<Row>): (r: seq<seq<Value>>)
    decreases |rows|
  {
    if rows == [] then [] else Lines(rows[..|rows| - 1]) + [Line(rows[|rows| - 1])]
  }

  /** One more row writes one more line. */
  lemma LinesSnoc(xs: seq<Row>, r: Row)
    ensures Lines(xs + [r]) == Lines(xs) + [Line(r)]
  {
    assert (xs + [r])[..|xs|] == xs;
  }

  /** The lines of the first `j + 1` authors of an article: those of the first `j`, then author `j`'s. */
  lemma ArticleLinesStep(rec: Record, n: NewsletterInfo, j: nat)
    requires j < |rec.authors|
    ensures var rows := ArticleRows(rec, n);
      Lines(rows[..j + 1]) == Lines(rows[..j]) + [Line(RowOf(rec.authors[j], rec.info, n))]
  {
    var rows := ArticleRows(rec, n);
    assert rows[..j + 1] == rows[..j] + [rows[j]];
    LinesSnoc(rows[..j], rows[j]);
  }

  /** Writing two lists of rows one after the other writes the lines of both. */
  lemma {:induction false} LinesAppend(xs: seq<Row>, ys: seq<Row>)
    ensures Lines(xs + ys) == Lines(xs) + Lines(ys)
    decreases |ys|
  {
    if ys == [] {
      assert xs + ys == xs;
    } else {
      var init := ys[..|ys| - 1];
      assert (xs + ys)[..|xs + ys| - 1] == xs + init;
      assert (xs + ys)[|xs + ys| - 1] == ys[|ys| - 1];
      LinesAppend(xs, init);
    }
  }

  /** The lines of the first `i + 1` articles are those of the first `i`, then those of article `i`. */
  lemma LinesStep(recs: seq<Record>, i: nat, n: NewsletterInfo)
    requires i < |recs|
    ensures Lines(Rows(recs[..i + 1], n)) == Lines(Rows(recs[..i], n)) + Lines(ArticleRows(recs[i], n))
  {
    assert recs[..i + 1][..i] == recs[..i];
    LinesAppend(Rows(recs[..i], n), ArticleRows(recs[i], n));
  }

  // ---------------------------------------------------------------------------
  // The objects

  /** The open file `write_csv` is given: the lines written to it, and whether it is closed. */
  class CsvFile {
    var lines: seq<seq<Value>>
    var closed: bool

    constructor ()
      ensures lines == [] && !closed
    {
      lines, closed := [], false;
    }

    /** One line written; writing to a closed file is the caller's error. */
    method WriteLine(line: seq<Value>)
      requires !closed
      modifies this
      ensures lines == old(lines) + [line] && !closed
    {
      lines := lines + [line];
    }

    method Close()
      modifies this
      ensures closed && lines == old(lines)
    {
      closed := true;
    }
  }

  /** What the `Article` objects hold, in order. */
  function Records(articles: seq<Article>): (r: seq<Record>)
    reads set a | a in articles
    reads set a, x | a in articles && x in a.authors :: x
    ensures |r| == |articles| && forall k :: 0 <= k < |articles| ==> r[k] == articles[k].Contents()
    decreases |articles|
  {
    if articles == [] then []
    else Records(articles[..|articles| - 1]) + [articles[|articles| - 1].Contents()]
  }

  class Newsletter {
    var info: NewsletterInfo
    var articles: seq<Article>

    /** The newsletter once its page and its PubMed records have been read. */
    constructor (info: NewsletterInfo, articles: seq<Article>)
      ensures this.info == info && this.articles == articles
    {
      this.info, this.articles := info, articles;
    }

    /** The rows of one article, author by author (the inner loop of `write_csv`); `rec` is what it holds. */
    method WriteArticle(file: CsvFile, article: Article, ghost rec: Record)
      requires !file.closed && article.Contents() == rec
      modifies file
      ensures !file.closed
      ensures file.lines == old(file.lines) + Lines(ArticleRows(rec, info))
    {
      ghost var before := file.lines;
      ghost var rows := ArticleRows(rec, info);
      var authors := article.authors;
      var articleInfo := article.Info();
      var j := 0;
      while j < |authors|
        invariant j <= |authors| == |rows| && !file.closed
        invariant forall k :: 0 <= k < |authors| ==> authors[k].Info() == rec.authors[k]
        invariant file.lines == before + Lines(rows[..j])
      {
        var row := RowOf(authors[j].Info(), articleInfo, info);
        ArticleLinesStep(rec, info, j);
        file.WriteLine(Line(row));
        j := j + 1;
      }
      assert rows[..j] == rows;
    }

    /**
      `write_csv` with the extra key ignored: the header, then one line per (article, author) pair in
      article-then-author order; then the file is closed.
    */
    method WriteCsv(file: CsvFile)
      requires !file.closed
      modifies file
      ensures file.closed
      ensures file.lines == old(file.lines) + [HeaderLine()] + Lines(Rows(old(Records(articles)), info))
    {
      ghost var start := file.lines;
      ghost var recs := Records(articles);
      file.WriteLine(HeaderLine());
      ghost var before := file.lines;
      var i := 0;
      while i < |articles|
        invariant i <= |articles| && !file.closed
        invariant file.lines == before + Lines(Rows(recs[..i], info))
      {
        ghost var done := Lines(Rows(recs[..i], info));
        ghost var added := Lines(ArticleRows(recs[i], info));
        WriteArticle(file, articles[i], recs[i]);
        LinesStep(recs, i, info);
        AppendAssoc(before, done, added);
        i := i + 1;
      }
      assert recs[..i] == recs;
      ghost var written := file.lines;
      assert written == start + [HeaderLine()] + Lines(Rows(recs, info));
      file.Close();
      assert file.lines == written;
    }
  }
}
