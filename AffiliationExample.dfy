/**
  `regex_search` on the affiliation of the first record of LeadEntry/leadentry_test.py:

    Department of Anesthesiology, Yale University, New Haven, CT 06520, USA; Department of
    Biomedical Engineering, Yale University, New Haven, CT 06520, USA

  Company is "Yale University", Department is "Department of Anesthesiology" and, as the text holds
  no `@`, Email is "". The first two hold for every text that begins like this one: only its first
  46 characters decide them. Character positions used below:
    0..9 "Department", 28 ',', 29 ' ', 30..33 "Yale", 35..44 "University", 45 ','.
*/
module AffiliationExample {
  import opened Wrappers
  import opened Text
  import opened Affiliation

  /** An affiliation that begins like the test's; the text is kept in short literal pieces. */
  function YaleAffiliation(rest: string): string {
    "Department of Anesthesiology" + ", Yale University," + rest
  }

  /** What follows the first 46 characters in the test's affiliation. */
  function TestRest(): string {
    " New Haven, CT 06520, USA; " + "Department of Biomedical " + "Engineering, Yale University"
      + ", New Haven, CT 06520, USA"
  }

  // ---------------------------------------------------------------------------
  // Department: `[\w ]*Department[\w ]*` matches at 0 and runs up to the comma at 28.

  lemma DeptKey(rest: string)
    ensures KeyAt(YaleAffiliation(rest), 0, DepartmentAlts()[0])
  {
  }

  lemma DeptRun(rest: string)
    ensures AllClass(YaleAffiliation(rest), 0, 28, WordSpace) && YaleAffiliation(rest)[28] == ','
  {
  }

  lemma DeptNoLaterKey(rest: string)
    ensures forall q :: 1 <= q <= 28 ==> Lower(YaleAffiliation(rest)[q]) != 'd'
  {
  }

  lemma DeptText(rest: string)
    ensures YaleAffiliation(rest)[0..28] == "Department of Anesthesiology"
  {
  }

  /** Any text with those character facts: the search reports `[0, 28)`, keyword `[0, 10)`. */
  lemma DeptSpanOf(s: string)
    requires KeyAt(s, 0, DepartmentAlts()[0])
    requires AllClass(s, 0, 28, WordSpace) && 28 < |s| && s[28] == ','
    requires forall q :: 1 <= q <= 28 ==> Lower(s[q]) != 'd'
    ensures Search(s, Department) == Some(Span(0, 0, 10, 28))
  {
    var alt := DepartmentAlts()[0];
    assert AllClass(s, 0, 0, WordSpace);
    forall q | 1 <= q <= 28 ensures !KeyAt(s, q, alt) { NotKeyAt(s, q, alt, 0); }
    SearchFirstAlt(s, Department, 0, 0);
    AltMatchAtFound(s, 0, alt, 28, 0);
    RunTo(s, 10, 28, WordSpace);
  }

  lemma DeptSpan(rest: string)
    ensures Search(YaleAffiliation(rest), Department) == Some(Span(0, 0, 10, 28))
  {
    DeptKey(rest);
    DeptRun(rest);
    DeptNoLaterKey(rest);
    DeptSpanOf(YaleAffiliation(rest));
  }

  /** Department is "Department of Anesthesiology". */
  lemma YaleDepartment(rest: string)
    ensures RegexSearch(YaleAffiliation(rest), Department) == "Department of Anesthesiology"
  {
    DeptSpan(rest);
    DeptText(rest);
    StripNothing(YaleAffiliation(rest)[0..28]);
  }

  // ---------------------------------------------------------------------------
  // Company: no alternative can match before the comma at 28; at 29, `[\w ]*Universit[y|aria][\w ]*`
  // matches " Yale University", up to the comma at 45.

  /**
    None of `universit`, `institut` and `eth` can match at or before `stop`, whose character ends
    every lead run: no `u` is within reach, and every `h` that could end an `eth` lacks its `e`.
  */
  lemma NoCompanyBefore(s: string, stop: nat)
    requires stop < |s| && !InClass(s[stop], WordSpaceQuote) && !InClass(s[stop], WordSpace)
    requires stop + 6 < |s| && forall q :: 0 <= q <= stop + 6 ==> Lower(s[q]) != 'u'
    requires forall q :: 2 <= q <= stop + 2 ==> Lower(s[q]) != 'h' || Lower(s[q - 2]) != 'e'
    ensures forall j :: 0 <= j <= stop ==> !MatchesAt(s, j, Company)
  {
    var alts := CompanyAlts();
    assert |alts[1].word| == 8 && alts[1].word[6] == 'u' && alts[2].word[2] == 'h';
    forall q | 0 <= q <= stop ensures !KeyAt(s, q, alts[0]) && !KeyAt(s, q, alts[1]) && !KeyAt(s, q, alts[2]) {
      NotKeyAt(s, q, alts[0], 0);
      NotKeyAt(s, q, alts[1], 6);
      if Lower(s[q]) != 'e' { NotKeyAt(s, q, alts[2], 0); } else { NotKeyAt(s, q, alts[2], 2); }
    }
    forall j | 0 <= j <= stop ensures !MatchesAt(s, j, Company) {
      NoAltMatch(s, j, stop, alts[0]);
      NoAltMatch(s, j, stop, alts[1]);
      NoAltMatch(s, j, stop, alts[2]);
    }
  }

  lemma CoNoU(rest: string)
    ensures var s := YaleAffiliation(rest);
      forall q :: 0 <= q <= 34 ==> Lower(s[q]) != 'u'
  {
  }

  lemma CoEth(rest: string)
    ensures var s := YaleAffiliation(rest);
      forall q :: 2 <= q <= 30 ==> Lower(s[q]) != 'h' || Lower(s[q - 2]) != 'e'
  {
  }

  lemma CoKey(rest: string)
    ensures KeyAt(YaleAffiliation(rest), 35, CompanyAlts()[0])
  {
  }

  lemma CoRun(rest: string)
    ensures var s := YaleAffiliation(rest);
      && AllClass(s, 29, 45, WordSpace) && s[28] == ',' && s[45] == ','
      && forall q :: 35 < q <= 45 ==> Lower(s[q]) != 'u'
  {
  }

  lemma CoText(rest: string)
    ensures YaleAffiliation(rest)[29..45] == " " + "Yale University"
  {
  }

  /** Any text with those character facts: the search reports `[29, 45)`, keyword `[35, 45)`. */
  lemma CompanySpanOf(s: string)
    requires 45 < |s| && s[28] == ',' && s[45] == ','
    requires forall q :: 0 <= q <= 34 ==> Lower(s[q]) != 'u'
    requires forall q :: 2 <= q <= 30 ==> Lower(s[q]) != 'h' || Lower(s[q - 2]) != 'e'
    requires KeyAt(s, 35, CompanyAlts()[0]) && AllClass(s, 29, 45, WordSpace)
    requires forall q :: 35 < q <= 45 ==> Lower(s[q]) != 'u'
    ensures Search(s, Company) == Some(Span(29, 35, 45, 45))
  {
    var alt := CompanyAlts()[0];
    NoCompanyBefore(s, 28);
    assert AllClass(s, 29, 35, WordSpace);
    SearchFirstAlt(s, Company, 29, 35);
    forall q | 35 < q <= 45 ensures !KeyAt(s, q, alt) { NotKeyAt(s, q, alt, 0); }
    AltMatchAtFound(s, 29, alt, 45, 35);
    RunTo(s, 45, 45, WordSpace);
  }

  lemma CompanySpan(rest: string)
    ensures Search(YaleAffiliation(rest), Company) == Some(Span(29, 35, 45, 45))
  {
    CoNoU(rest);
    CoEth(rest);
    CoKey(rest);
    CoRun(rest);
    CompanySpanOf(YaleAffiliation(rest));
  }

  /** Company is "Yale University". */
  lemma YaleCompany(rest: string)
    ensures RegexSearch(YaleAffiliation(rest), Company) == "Yale University"
  {
    CompanySpan(rest);
    CoText(rest);
    StripOneSpace("Yale University");
  }

  // ---------------------------------------------------------------------------
  // Email: the text holds no `@`.

  lemma NoAtInHead(rest: string)
    requires '@' !in rest
    ensures '@' !in YaleAffiliation(rest)
  {
  }

  lemma NoAtInRest()
    ensures '@' !in TestRest()
  {
  }

  /** The three fields `regex_search` derives from the test's affiliation. */
  lemma YaleTestAffiliation()
    ensures var s := YaleAffiliation(TestRest());
      && RegexSearch(s, Company) == "Yale University"
      && RegexSearch(s, Department) == "Department of Anesthesiology"
      && RegexSearch(s, Email) == ""
  {
    YaleCompany(TestRest());
    YaleDepartment(TestRest());
    NoAtInRest();
    NoAtInHead(TestRest());
    NoAtNoEmail(YaleAffiliation(TestRest()));
  }
}
