/**
  `Article` (LeadEntry/leadentry.py): one PubMed record. Its `info` holds the cleaned title, the
  publication date and a DOI link; `find_authors` builds one `Author` per `<author>` element, in order,
  carrying the last non-empty affiliation forward to authors that have none.
*/
module Articles {
  import opened Wrappers
  import opened Text
  import opened Dates
  import opened Authors

  /** The parts of a `<PubmedArticle>` element the code reads. */
  datatype ArticleTag = ArticleTag(
    title: Option<string>,     // `<ArticleTitle>`, if present
    dates: RecordDates,
    doi: Option<string>,       // the element with `IdType="doi"`, if present
    authors: seq<AuthorTag>)   // the `<Author>` elements, in document order

  /** `Article.info`, key by key. */
  datatype ArticleInfo = ArticleInfo(
    title: string,   // 'Article Title'
    date: Date,      // 'Publication Date'
    link: string)    // 'Publication Link'

  // ---------------------------------------------------------------------------
  // Title

  const Dots: Chars := Only({'.'})

  /** `find_title`: the title stripped of whitespace, then of every leading and trailing `.`. */
  function CleanTitle(title: string): (r: string)
    ensures r == [] || (r[0] != '.' && r[|r| - 1] != '.')
  {
    Strip(StripSpace(title), Dots)
  }

  /** The cleaned title is what is left of the title once the outer whitespace and dots are gone. */
  lemma CleanTitleIsInner(title: string)
    ensures var inner := StripSpace(title);
      IsStripOf(CleanTitle(title), inner, Dots, StripStart(inner, Dots))
  {
    StripIsStripOf(StripSpace(title), Dots);
  }

  /** The title ". x ." loses its dots, and keeps the whitespace they enclosed. */
  lemma DottedTitleCleaned()
    ensures CleanTitle(". x .") == " x "
  {
    assert StripSpace(". x .") == ". x ." by { StripUnique(". x .", ". x .", Spaces, 0); }
    StripUnique(" x ", ". x .", Dots, 1);
  }

  /** The title " x " loses its whitespace. */
  lemma SpacedTitleCleaned()
    ensures CleanTitle(" x ") == "x"
  {
    assert StripSpace(" x ") == "x" by { StripUnique("x", " x ", Spaces, 1); }
    StripUnique("x", "x", Dots, 0);
  }

  /** Cleaning is not idempotent: stripping the dots can expose whitespace that a second pass removes. */
  lemma CleanTitleNotIdempotent()
    ensures CleanTitle(". x .") == " x "
    ensures CleanTitle(CleanTitle(". x .")) == "x"
  {
    DottedTitleCleaned();
    SpacedTitleCleaned();
  }

  /** Once no whitespace is exposed at the ends, cleaning again changes nothing. */
  lemma CleanTitleStable(title: string)
    requires CleanTitle(title) == [] || (!IsSpace(CleanTitle(title)[0]) && !IsSpace(CleanTitle(title)[|CleanTitle(title)| - 1]))
    ensures CleanTitle(CleanTitle(title)) == CleanTitle(title)
  {
    var r := CleanTitle(title);
    assert StripSpace(r) == r by {
      assert r[0..|r|] == r;
      StripUnique(r, r, Spaces, 0);
    }
    StripIdempotent(StripSpace(title), Dots);
  }

  // ---------------------------------------------------------------------------
  // DOI

  const DoiPrefix: string := "http://dx.doi.org/"
  const NoDoi: string := "DOI not found"

  /** `find_doi`: the resolver link for the stripped DOI, or the sentinel when there is no DOI element. */
  function DoiLink(doi: Option<string>): (r: string)
    ensures doi.Some? ==> r == DoiPrefix + StripSpace(doi.value)
    ensures r == NoDoi <==> doi.None?
  {
    match doi
    case Some(text) =>
      assert (DoiPrefix + StripSpace(text))[0] != NoDoi[0];
      DoiPrefix + StripSpace(text)
    case None => NoDoi
  }

  /** Reading the DOI back out of a link. */
  function DoiOfLink(link: string): Option<string> {
    if DoiPrefix <= link then Some(link[|DoiPrefix|..]) else None
  }

  /** `DoiOfLink` undoes `DoiLink`, up to the stripping. */
  lemma DoiRoundTrip(doi: Option<string>)
    ensures DoiOfLink(DoiLink(doi)) == if doi.Some? then Some(StripSpace(doi.value)) else None
  {
    if doi.Some? {
      var link := DoiLink(doi);
      assert link[..|DoiPrefix|] == DoiPrefix;
      assert link[|DoiPrefix|..] == StripSpace(doi.value);
    } else {
      assert NoDoi[0] != DoiPrefix[0];
    }
  }

  // ---------------------------------------------------------------------------
  // Authors and the affiliation carried forward

  /** The first `n` author tags all have both names. */
  predicate NamedUpTo(tags: seq<AuthorTag>, n: nat) {
    n <= |tags| && forall k :: 0 <= k < n ==> HasNames(tags[k])
  }

  predicate AllNamed(tags: seq<AuthorTag>) {
    NamedUpTo(tags, |tags|)
  }

  /** What `Author(tag)` builds for each of the first `n` tags, before any affiliation is carried. */
  function Built(tags: seq<AuthorTag>, n: nat): (r: seq<AuthorInfo>)
    requires NamedUpTo(tags, n)
    ensures |r| == n
  {
    seq(n, k requires 0 <= k < n && HasNames(tags[k]) => AuthorOf(tags[k]))
  }

  /** The last non-empty affiliation among `built[..i]`, or "" when there is none: `prev_aff` after `i` authors. */
  function LastAff(built: seq<AuthorInfo>, i: nat): string
    requires i <= |built|
  {
    if i == 0 then ""
    else if built[i - 1].aff != "" then built[i - 1].aff
    else LastAff(built, i - 1)
  }

  /** `LastAff` is the affiliation of the nearest earlier author that has one, or "" when none has. */
  lemma {:induction false} LastAffNearest(built: seq<AuthorInfo>, i: nat)
    requires i <= |built|
    ensures LastAff(built, i) == "" ==> forall k :: 0 <= k < i ==> built[k].aff == ""
    ensures LastAff(built, i) != "" ==>
      exists j :: 0 <= j < i && built[j].aff == LastAff(built, i) && forall k :: j < k < i ==> built[k].aff == ""
  {
    if i > 0 && built[i - 1].aff == "" {
      LastAffNearest(built, i - 1);
    }
  }

  /** An author with an affiliation followed only by authors without one, up to `i`, is the one `LastAff` finds. */
  lemma {:induction false} LastAffAt(built: seq<AuthorInfo>, j: nat, i: nat)
    requires j < i <= |built| && built[j].aff != ""
    requires forall k :: j < k < i ==> built[k].aff == ""
    ensures LastAff(built, i) == built[j].aff
  {
    if j < i - 1 {
      LastAffAt(built, j, i - 1);
    }
  }

  /** The author the loop appends for the freshly built `a` when `prev_aff` is `prevAff`. */
  function Settled(a: AuthorInfo, prevAff: string): AuthorInfo {
    if a.aff == "" then WithAff(a, prevAff) else a
  }

  /** The first `n` authors of `built`, each settled with the affiliation carried to it. */
  function Carry(built: seq<AuthorInfo>, n: nat): (r: seq<AuthorInfo>)
    requires n <= |built|
    ensures |r| == n
  {
    if n == 0 then [] else Carry(built, n - 1) + [Settled(built[n - 1], LastAff(built, n - 1))]
  }

  /** Concatenation regroups freely (kept apart so that the loops below do not reason about it). */
  lemma AppendAssoc<T>(a: seq<T>, b: seq<T>, c: seq<T>)
    ensures (a + b) + c == a + (b + c)
  {
  }

  /** Carrying more authors does not change the ones already carried. */
  lemma {:induction false} CarryPrefix(built: seq<AuthorInfo>, m: nat, n: nat, i: nat)
    requires i < m <= n <= |built|
    ensures Carry(built, n)[i] == Carry(built, m)[i]
  {
    if m < n {
      CarryPrefix(built, m, n - 1, i);
    }
  }

  /** Author `i` is settled with the last affiliation before it, whatever follows. */
  lemma CarryAt(built: seq<AuthorInfo>, n: nat, i: nat)
    requires i < n <= |built|
    ensures Carry(built, n)[i] == Settled(built[i], LastAff(built, i))
  {
    CarryPrefix(built, i + 1, n, i);
  }

  /** The authors the loop leaves for the first `n` tags. */
  function CarryAuthors(tags: seq<AuthorTag>, n: nat): (r: seq<AuthorInfo>)
    requires NamedUpTo(tags, n)
    ensures |r| == n
  {
    Carry(Built(tags, n), n)
  }

  /**
    Carry-forward on the built authors: author `i` keeps its names; it keeps its affiliation and
    derived fields when it has an affiliation, and otherwise gets those of the nearest earlier author
    that has one, or "" when none has.
  */
  lemma CarryForwardBuilt(built: seq<AuthorInfo>, i: nat)
    requires i < |built|
    ensures var a := Carry(built, |built|)[i];
      && a.firstName == built[i].firstName && a.lastName == built[i].lastName
      && (built[i].aff != "" ==> a == built[i])
      && (built[i].aff == "" ==> a == WithAff(built[i], a.aff))
      && (built[i].aff == "" && a.aff == "" ==> forall k :: 0 <= k < i ==> built[k].aff == "")
      && (built[i].aff == "" && a.aff != "" ==>
            exists j :: 0 <= j < i && built[j].aff == a.aff && forall k :: j < k < i ==> built[k].aff == "")
  {
    CarryAt(built, |built|, i);
    LastAffNearest(built, i);
  }

  /**
    Carry-forward: one author per tag, in tag order, with the tag's names; its own affiliation if
    that is non-empty and otherwise the one of the nearest earlier author that has one (or ""); and
    Company, Department and Email derived from that affiliation.
  */
  lemma CarryForward(tags: seq<AuthorTag>, i: nat)
    requires AllNamed(tags) && i < |tags|
    ensures var a := CarryAuthors(tags, |tags|)[i];
      && a.firstName == FirstName(tags[i].foreName.value) && a.lastName == StripSpace(tags[i].lastName.value)
      && InSync(a)
      && (AffOf(tags[i]) != "" ==> a.aff == AffOf(tags[i]))
      && (AffOf(tags[i]) == "" && a.aff == "" ==> forall k :: 0 <= k < i ==> AffOf(tags[k]) == "")
      && (AffOf(tags[i]) == "" && a.aff != "" ==>
            exists j :: 0 <= j < i && AffOf(tags[j]) == a.aff && forall k :: j < k < i ==> AffOf(tags[k]) == "")
  {
    var built := Built(tags, |tags|);
    assert built[i] == AuthorOf(tags[i]);
    CarryForwardBuilt(built, i);
    if AffOf(tags[i]) == "" {
      CarryForwardEarlier(tags, i);
    }
  }

  /** `CarryForward` for an author without an affiliation of its own, stated on the tags. */
  lemma CarryForwardEarlier(tags: seq<AuthorTag>, i: nat)
    requires AllNamed(tags) && i < |tags| && AffOf(tags[i]) == ""
    ensures var a := CarryAuthors(tags, |tags|)[i];
      && (a.aff == "" ==> forall k :: 0 <= k < i ==> AffOf(tags[k]) == "")
      && (a.aff != "" ==> exists j :: 0 <= j < i && AffOf(tags[j]) == a.aff && forall k :: j < k < i ==> AffOf(tags[k]) == "")
  {
    BuiltAffs(tags);
    EarlierOnAffs(Built(tags, |tags|), tags, i);
  }

  /** Each built author's affiliation is its tag's stripped affiliation, or "". */
  lemma BuiltAffs(tags: seq<AuthorTag>)
    requires AllNamed(tags)
    ensures forall k :: 0 <= k < |tags| ==> Built(tags, |tags|)[k].aff == AffOf(tags[k])
  {
  }

  /** `CarryForwardBuilt`'s carried case, restated on the affiliations of the tags. */
  lemma {:induction false} EarlierOnAffs(built: seq<AuthorInfo>, tags: seq<AuthorTag>, i: nat)
    requires |built| == |tags| && i < |tags| && AffOf(tags[i]) == ""
    requires forall k :: 0 <= k < |tags| ==> built[k].aff == AffOf(tags[k])
    ensures var a := Carry(built, |built|)[i];
      && (a.aff == "" ==> forall k :: 0 <= k < i ==> AffOf(tags[k]) == "")
      && (a.aff != "" ==> exists j :: 0 <= j < i && AffOf(tags[j]) == a.aff && forall k :: j < k < i ==> AffOf(tags[k]) == "")
  {
    CarryForwardBuilt(built, i);
    var a := Carry(built, |built|)[i];
    if a.aff != "" {
      var j :| 0 <= j < i && built[j].aff == a.aff && forall k :: j < k < i ==> built[k].aff == "";
      assert AffOf(tags[j]) == a.aff;
    }
  }

  /**
    An author whose affiliation is carried from author `j` (the nearest earlier one with an
    affiliation) ends up with the same affiliation, Company, Department and Email as author `j`.
  */
  lemma CarriedMatchesSource(tags: seq<AuthorTag>, j: nat, i: nat)
    requires AllNamed(tags) && j < i < |tags|
    requires AffOf(tags[j]) != "" && AffOf(tags[i]) == ""
    requires forall k :: j < k < i ==> AffOf(tags[k]) == ""
    ensures var authors := CarryAuthors(tags, |tags|);
      && authors[i].aff == authors[j].aff == AffOf(tags[j])
      && authors[i].company == authors[j].company
      && authors[i].department == authors[j].department
      && authors[i].email == authors[j].email
  {
    var built := Built(tags, |tags|);
    CarryAt(built, |tags|, i);
    CarryAt(built, |tags|, j);
    LastAffAt(built, j, i);
  }

  // ---------------------------------------------------------------------------
  // The loop as a left fold

  /** The state `find_authors` threads through its loop: `prev_aff` and the authors built so far. */
  datatype Carried = Carried(prevAff: string, authors: seq<AuthorInfo>)

  /** The initial state of the loop: `prev_aff = ''`, no authors. */
  const Start: Carried := Carried("", [])

  /**
    One iteration on the freshly built author `a`: without an affiliation it gets `prev_aff`
    (`set_institute`), with one it replaces `prev_aff`; either way it is appended.
  */
  function Step(c: Carried, a: AuthorInfo): Carried {
    Carried(if a.aff == "" then c.prevAff else a.aff, c.authors + [Settled(a, c.prevAff)])
  }

  /** The loop as a left fold: `Step` applied to each built author in turn, starting from `c`. */
  function FoldAuthors(c: Carried, built: seq<AuthorInfo>): (r: Carried)
    ensures |r.authors| == |c.authors| + |built|
    decreases |built|
  {
    if built == [] then c else Step(FoldAuthors(c, built[..|built| - 1]), built[|built| - 1])
  }

  /**
    The left fold and the author-by-author description agree: after `n` authors, `prev_aff` is the
    last non-empty affiliation so far and the authors are `Carry(built, n)`.
  */
  lemma {:induction false} FoldIsCarry(built: seq<AuthorInfo>, n: nat)
    requires n <= |built|
    ensures FoldAuthors(Start, built[..n]) == Carried(LastAff(built, n), Carry(built, n))
  {
    if n > 0 {
      FoldIsCarry(built, n - 1);
      assert built[..n][..n - 1] == built[..n - 1];
    }
  }

  /** `find_authors`' loop over the tags is the left fold over the authors it builds. */
  lemma FoldMatchesLoop(tags: seq<AuthorTag>, n: nat)
    requires NamedUpTo(tags, n)
    ensures FoldAuthors(Start, Built(tags, n)).authors == CarryAuthors(tags, n)
  {
    FoldIsCarry(Built(tags, n), n);
    assert Built(tags, n)[..n] == Built(tags, n);
  }

  // ---------------------------------------------------------------------------
  // The record as a value

  /** The index of the first author tag without both names, or `|tags|` when every one has them. */
  function FirstUnnamed(tags: seq<AuthorTag>, from: nat): (r: nat)
    requires NamedUpTo(tags, from)
    ensures from <= r <= |tags| && NamedUpTo(tags, r) && (r < |tags| ==> !HasNames(tags[r]))
    decreases |tags| - from
  {
    if from == |tags| || !HasNames(tags[from]) then from else FirstUnnamed(tags, from + 1)
  }

  /** Any `r` with the named prefix `tags[..r]` and an unnamed tag at `r` (or the end) is `FirstUnnamed`. */
  lemma {:induction false} FirstUnnamedIsFirst(tags: seq<AuthorTag>, from: nat, r: nat)
    requires from <= r && NamedUpTo(tags, r) && (r < |tags| ==> !HasNames(tags[r]))
    ensures FirstUnnamed(tags, from) == r
    decreases |tags| - from
  {
    if from < r {
      FirstUnnamedIsFirst(tags, from + 1, r);
    }
  }

  /** `find_date`: the chosen date fields, read field by field (see `Dates.ParseFields`). */
  function DateOf(dates: RecordDates): (r: Result<Date, Raised>)
    ensures r.Success? ==> SelectFields(dates).Success? && ValidDate(r.value)
    ensures SelectFields(dates).Failure? ==> r == Failure(SelectFields(dates).error)
    ensures SelectFields(dates).Success? && r.Failure? ==> r.error == ValueError
    ensures SelectFields(dates).Success? ==> r == ParseFields(SelectFields(dates).value)
  {
    match SelectFields(dates)
    case Failure(e) => Failure(e)
    case Success(f) => ParseFields(f)
  }

  /**
    `find_date` gives date `d` exactly when the chosen fields are there and spell its day, month
    and year, and `d` exists.
  */
  lemma DateOfExact(dates: RecordDates, d: Date)
    ensures DateOf(dates) == Success(d) <==>
      && SelectFields(dates).Success?
      && var f := SelectFields(dates).value;
      && DayValue(f.day) == Some(d.day) && MonthValue(f.month) == Some(d.month) && YearValue(f.year) == Some(d.year)
      && ValidDate(d)
  {
    if SelectFields(dates).Success? {
      ParseFieldsExact(SelectFields(dates).value, d);
    }
  }

  /** What a constructed `Article` holds: its `info` and its authors' `info`, in order. */
  datatype Record = Record(info: ArticleInfo, authors: seq<AuthorInfo>)

  /**
    `Article(tag)` on values. The constructor runs `find_title`, `find_date`, `find_doi` and
    `find_authors` in that order, so the first of them to raise decides the error.
  */
  function ArticleOf(tag: ArticleTag): (r: Result<Record, Raised>)
    ensures tag.title.None? ==> r == Failure(AttributeError)
    ensures tag.title.Some? && DateOf(tag.dates).Failure? ==> r == Failure(DateOf(tag.dates).error)
    ensures tag.title.Some? && DateOf(tag.dates).Success? && !AllNamed(tag.authors) ==> r == Failure(AttributeError)
    ensures r.Success? <==> tag.title.Some? && DateOf(tag.dates).Success? && AllNamed(tag.authors)
    ensures r.Success? ==>
      && r.value.info == ArticleInfo(CleanTitle(tag.title.value), DateOf(tag.dates).value, DoiLink(tag.doi))
      && r.value.authors == CarryAuthors(tag.authors, |tag.authors|)
  {
    if tag.title.None? then Failure(AttributeError)
    else if DateOf(tag.dates).Failure? then Failure(DateOf(tag.dates).error)
    else if !AllNamed(tag.authors) then Failure(AttributeError)
    else Success(Record(ArticleInfo(CleanTitle(tag.title.value), DateOf(tag.dates).value, DoiLink(tag.doi)),
                        CarryAuthors(tag.authors, |tag.authors|)))
  }

  // ---------------------------------------------------------------------------
  // The objects

  /** One more author adds its `info` at the end. */
  lemma InfosSnoc(authors: seq<Author>, a: Author)
    ensures Infos(authors + [a]) == Infos(authors) + [a.Info()]
  {
    assert (authors + [a])[..|authors|] == authors;
  }

  /** The `info` dictionaries of a list of `Author` objects, in order. */
  function Infos(authors: seq<Author>): (r: seq<AuthorInfo>)
    reads set a | a in authors
    ensures |r| == |authors| && forall k :: 0 <= k < |authors| ==> r[k] == authors[k].Info()
  {
    if authors == [] then []
    else Infos(authors[..|authors| - 1]) + [authors[|authors| - 1].Info()]
  }

  class Article {
    var title: string
    var date: Date
    var link: string
    var authors: seq<Author>

    /** The `info` dictionary. */
    function Info(): ArticleInfo
      reads this
    {
      ArticleInfo(title, date, link)
    }

    /** The record the object holds: its `info` and its authors' `info`. */
    function Contents(): Record
      reads this, set a | a in authors
    {
      Record(Info(), Infos(authors))
    }

    /** `info = {}`, `authors = []`; the keys are given placeholder values until the finders run. */
    constructor Empty()
      ensures authors == []
    {
      title, date, link, authors := "", Date(1, 1, 1), "", [];
    }

    /** `Article(tag)`: the finders in order; the first exception ends construction. */
    static method Parse(tag: ArticleTag) returns (r: Result<Article, Raised>)
      ensures r.Failure? <==> ArticleOf(tag).Failure?
      ensures r.Failure? ==> r.error == ArticleOf(tag).error
      ensures r.Success? ==> fresh(r.value) && r.value.Contents() == ArticleOf(tag).value
    {
      var article := new Article.Empty();
      var err := article.FindTitle(tag.title);
      if err.Some? {
        return Failure(err.value);
      }
      err := article.FindDate(tag.dates);
      if err.Some? {
        return Failure(err.value);
      }
      article.FindDoi(tag.doi);
      err := article.FindAuthors(tag.authors);
      if err.Some? {
        return Failure(err.value);
      }
      return Success(article);
    }

    /** `find_title`: `articletitle` missing raises `AttributeError`. */
    method FindTitle(title': Option<string>) returns (err: Option<Raised>)
      modifies this
      ensures err == if title'.None? then Some(AttributeError) else None
      ensures title'.Some? ==> title == CleanTitle(title'.value)
      ensures date == old(date) && link == old(link) && authors == old(authors)
    {
      match title'
      case None => return Some(AttributeError);
      case Some(text) =>
        title := CleanTitle(text);
        return None;
    }

    /** `find_date`: the date fields by precedence, then the date read from them. */
    method FindDate(dates: RecordDates) returns (err: Option<Raised>)
      modifies this
      ensures err == if DateOf(dates).Failure? then Some(DateOf(dates).error) else None
      ensures err.None? ==> date == DateOf(dates).value
      ensures title == old(title) && link == old(link) && authors == old(authors)
    {
      var fields := SelectFields(dates);
      if fields.Failure? {
        return Some(fields.error);
      }
      var parsed := ParseFields(fields.value);
      if parsed.Failure? {
        return Some(parsed.error);
      }
      date := parsed.value;
      return None;
    }

    /** `find_doi`: the link, or the sentinel. */
    method FindDoi(doi: Option<string>)
      modifies this
      ensures Info() == old(Info()).(link := DoiLink(doi)) && authors == old(authors)
    {
      match doi
      case Some(text) => link := DoiPrefix + StripSpace(text);
      case None => link := NoDoi;
    }

    /**
      The body of one iteration of `find_authors`: a new `Author` for `tag`, given `prevAff` when it
      has no affiliation. The new `prev_aff` is the affiliation the author ends up with.
    */
    static method NewAuthor(tag: AuthorTag, prevAff: string) returns (author: Author, prevAff': string)
      requires HasNames(tag)
      ensures prevAff' == if AffOf(tag) != "" then AffOf(tag) else prevAff
      ensures fresh(author) && author.Info() == Settled(AuthorOf(tag), prevAff)
    {
      author := new Author(tag);
      prevAff' := prevAff;
      if author.aff == "" {
        author.SetInstitute(prevAff);
      } else {
        prevAff' := author.aff;
      }
    }

    /** One iteration of `find_authors`: the new `Author` appended to `list`. */
    static method AppendAuthor(list: seq<Author>, tag: AuthorTag, prevAff: string) returns (list': seq<Author>, prevAff': string)
      requires HasNames(tag)
      ensures prevAff' == if AffOf(tag) != "" then AffOf(tag) else prevAff
      ensures |list'| == |list| + 1 && (forall k :: 0 <= k < |list| ==> list'[k] == list[k]) && fresh(list'[|list|])
      ensures Infos(list') == old(Infos(list)) + [Settled(AuthorOf(tag), prevAff)]
    {
      var author;
      author, prevAff' := NewAuthor(tag, prevAff);
      list' := list + [author];
      InfosSnoc(list, author);
    }

    /** `AppendAuthor` for tag `n`, stated on the authors `built` from the tags. */
    static method AppendNext(list: seq<Author>, tags: seq<AuthorTag>, n: nat, prevAff: string, ghost built: seq<AuthorInfo>)
      returns (list': seq<Author>, prevAff': string)
      requires n < |built| <= |tags| && HasNames(tags[n]) && built[n] == AuthorOf(tags[n])
      requires prevAff == LastAff(built, n)
      ensures prevAff' == LastAff(built, n + 1)
      ensures |list'| == |list| + 1 && forall k :: 0 <= k < |list| ==> list'[k] == list[k]
      ensures Infos(list') == old(Infos(list)) + [Settled(built[n], prevAff)]
    {
      list', prevAff' := AppendAuthor(list, tags[n], prevAff);
    }

    /**
      The loop of `find_authors` over `list`: one new `Author` per tag, appended in order, until the
      first tag without both names; returns the list and how many tags it consumed. `built` holds
      what `Author(tag)` builds for each tag of the named prefix.
    */
    static method AppendAll(list: seq<Author>, tags: seq<AuthorTag>, ghost built: seq<AuthorInfo>) returns (list': seq<Author>, n: nat)
      requires |built| == FirstUnnamed(tags, 0)
      requires forall k {:trigger AuthorOf(tags[k])} :: 0 <= k < |built| ==> built[k] == AuthorOf(tags[k])
      ensures n == |built|
      ensures |list'| == |list| + n && forall k :: 0 <= k < |list| ==> list'[k] == list[k]
      ensures Infos(list') == old(Infos(list)) + Carry(built, n)
    {
      ghost var before := Infos(list);
      list' := list;
      var prevAff := "";
      n := 0;
      while n < |tags| && HasNames(tags[n])
        invariant n <= |built|
        invariant |list'| == |list| + n && forall k :: 0 <= k < |list| ==> list'[k] == list[k]
        invariant Infos(list') == before + Carry(built, n)
        invariant prevAff == LastAff(built, n)
      {
        assert n < |built|;
        ghost var done, prev := Carry(built, n), prevAff;
        list', prevAff := AppendNext(list', tags, n, prevAff, built);
        AppendAssoc(before, done, [Settled(built[n], prev)]);
        n := n + 1;
      }
    }

    /**
      `find_authors`: one new `Author` per tag, appended in order; an author without affiliation is
      given `prev_aff`, any other one replaces it. A tag without both names raises `AttributeError`
      and the authors appended before it stay.
    */
    method FindAuthors(tags: seq<AuthorTag>) returns (err: Option<Raised>)
      modifies this
      ensures var n := FirstUnnamed(tags, 0);
        && (err == if n < |tags| then Some(AttributeError) else None)
        && Infos(authors) == old(Infos(authors)) + CarryAuthors(tags, n)
      ensures Info() == old(Info())
    {
      ghost var m := FirstUnnamed(tags, 0);
      var list, n := AppendAll(authors, tags, Built(tags, m));
      ghost var infos := Infos(list);
      assert infos == old(Infos(authors)) + CarryAuthors(tags, m);
      authors := list;
      assert Infos(authors) == infos;
      err := if n < |tags| then Some(AttributeError) else None;
    }
  }
}
