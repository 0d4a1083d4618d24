# LeadEntry in Dafny

A model of the extraction core of `LeadEntry/leadentry.py`. That code turns PubMed records into
contact rows for a lead-import sheet, one row per author. The model covers:

- `regex_search`, which pulls Company, Department and Email out of a free-text affiliation;
- the `Author` field finders and `set_institute`;
- the `Article` finders for title, publication date, DOI link and authors, including the affiliation
  carried forward to authors that have none;
- the lead-source string `Newsletter.find_specific_lead_source` computes from the page title;
- the rows `Newsletter.write_csv` writes.

Modules, one per file:

| file | module | what it holds |
|---|---|---|
| `Wrappers.dfy` | `Wrappers` | `Option`, `Result`, and `Raised` (the Python exceptions the code can raise) |
| `Text.dfy` | `Text` | Python 2 `unicode.strip()` / `strip(chars)`, `split(sep)`, the ASCII character tests |
| `Affiliation.dfy` | `Affiliation` | `regex_search`: the three fixed patterns as a leftmost-first, alternative-by-alternative, greedy backtracking matcher, with a declarative statement of what a match is |
| `AffiliationExample.dfy` | `AffiliationExample` | `regex_search` evaluated on the affiliation of the first record of `LeadEntry/leadentry_test.py` |
| `Authors.dfy` | `Authors` | `AuthorInfo` (the `info` dict as a value), the field finders as functions, and `class Author` whose methods update its fields in place |
| `Dates.dfy` | `Dates` | `find_date`: the choice between `<PubDate>`, `<ArticleDate>` and the medline date; `time.strptime` on the concatenated fields as written; the field-by-field reading the concatenation evidently intends, and the same reading stated by value (`DayValue`, `MonthValue`, `YearValue`) |
| `Articles.dfy` | `Articles` | title cleaning, DOI link, the carry-forward of affiliations as a specification function and as a left fold, `ArticleOf` (an article as a value), and `class Article` whose `FindAuthors` runs the source's loop |
| `Newsletter.dfy` | `Newsletter` | `find_specific_lead_source` on a title string, the newsletter's `info`, row merging, the CSV lines, and `class Newsletter` whose `WriteCsv` runs the nested loop of `write_csv` |

Exceptions the source lets escape are `Result` failures carrying the exception's name:
`AttributeError` for a missing tag, `NameError` for the unbound date fields, `KeyError` for a missing
`DateType` attribute, `ValueError` from `strptime` and `DictWriter`, and `IndexError` from the
lead-source indexing. PubMed elements are datatypes with optional children
(`AuthorTag`, `DateTag`, `RecordDates`, `ArticleTag`).

## Model

| member | source | states |
|---|---|---|
| Text.Strip | LeadEntry/leadentry.py:102 | `strip(chars)`: the result neither starts nor ends with one of the stripped characters |
| Text.StripIsStripOf | LeadEntry/leadentry.py:102 | the result is the slice of the input between the leading and the trailing run of stripped characters; everything outside it is such a character and its two ends are not |
| Text.StripUnique | LeadEntry/leadentry.py:102 | any slice with that description is the result of `strip`: the description determines it |
| Text.StripIdempotent | LeadEntry/leadentry.py:102 | stripping the same characters a second time changes nothing |
| Text.StripSpace | LeadEntry/leadentry.py:157 | argument-less `strip()`: the result has no whitespace at either end |
| Text.StripSliceKeeps | LeadEntry/leadentry.py:198 | stripping a slice of a string keeps every inner piece whose end characters are not stripped; the result is itself a slice of the string around that piece |
| Text.IndexOf | LeadEntry/leadentry.py:65 | the first index from which the separator occurs, or the length when it occurs nowhere after the start |
| Text.Split | LeadEntry/leadentry.py:65 | `split(sep)` gives at least one part; joining the parts with the separator gives back the input; no part contains the separator |
| Text.SplitHead | LeadEntry/leadentry.py:161-162 | the first part is the text before the first separator, or the whole text when there is none |
| Text.SplitSecond | LeadEntry/leadentry.py:65-67 | there is a second part exactly when the separator occurs; it is the text after the first separator, up to the next one |
| Affiliation.Run | LeadEntry/leadentry.py:190-194 | a greedy `[...]*` run: every character it covers is in the class |
| Affiliation.RunIsLongest | LeadEntry/leadentry.py:190-194 | no run of the class starting at the same place reaches further than the greedy one |
| Affiliation.LastKeyAt | LeadEntry/leadentry.py:190-193 | the rightmost keyword position within reach, which is where a backtracking `[\w ]*` first succeeds |
| Affiliation.AltMatchAt | LeadEntry/leadentry.py:190-193 | one alternative `lead* KEYWORD opt? tail*` finds a match at a position exactly when a run of lead characters followed by the keyword starts there; the match holds that keyword |
| Affiliation.AltMatchAtGreedy | LeadEntry/leadentry.py:190-193 | the match found is the greedy one: no keyword lies further right within the lead run; the optional atom is taken when present; the tail stops only at a character outside its class |
| Affiliation.AltsPlain | LeadEntry/leadentry.py:190-193 | every keyword (`Department`, `Laboratory`, `Cent[er\|re]`, `Service`, `Universit[y\|aria]`, `Institut`, `ETH`) is made of letters and `\|` only |
| Affiliation.FirstAlt | LeadEntry/leadentry.py:190-193 | the first alternative in pattern order that can match at a position; every earlier one cannot |
| Affiliation.FirstAltAt | LeadEntry/leadentry.py:190-193 | at a position there is a match exactly when some alternative can match there; the match holds one of the keywords |
| Affiliation.LastTldAt | LeadEntry/leadentry.py:194 | the rightmost `.` followed by two letters within reach, where the backtracking domain part stops |
| Affiliation.LocalPartUnique | LeadEntry/leadentry.py:194 | the only `@` a local part can reach is the one that ends its greedy run |
| Affiliation.DomainEnd | LeadEntry/leadentry.py:194 | the domain part succeeds exactly when some domain run is followed by a `.` and two letters; it ends at the last such dot |
| Affiliation.EmailMatchesGreedy | LeadEntry/leadentry.py:194 | the e-mail pattern matches at a position exactly when it is a word boundary, the greedy local part ends at an `@`, and a domain follows |
| Affiliation.TldLetters | LeadEntry/leadentry.py:194 | `[A-Z]{2,4}` after the dot takes between two and four letters, all inside the string |
| Affiliation.EmailAt | LeadEntry/leadentry.py:194 | there is an e-mail match at a position exactly when the pattern matches there; it holds the `@` and ends on a letter |
| Affiliation.MatchAtMeaning | LeadEntry/leadentry.py:196 | a match is reported at a start position exactly when the mode's pattern can match there |
| Affiliation.MatchAtKey | LeadEntry/leadentry.py:196 | the reported match holds one of the mode's keywords, or the `@` of an address |
| Affiliation.FirstSome | LeadEntry/leadentry.py:196 | the index of the first `Some`; everything before it is `None` |
| Affiliation.SearchMeaning | LeadEntry/leadentry.py:196 | `re.search`: no match exactly when the pattern matches at no position; otherwise the match at the leftmost position where it can match |
| Affiliation.StrippedMatchKeepsKey | LeadEntry/leadentry.py:197-198 | the reported match, stripped, is a non-empty piece of the input that still holds the keyword or the `@` |
| Affiliation.RegexSearchMeaning | LeadEntry/leadentry.py:188-200 | `regex_search` never fails. It returns `''` exactly when the pattern matches nowhere. Otherwise it returns, stripped, exactly the span `re.search` reports: the match `MatchAt` gives (first matching alternative, greedy extent per `AltMatchAtGreedy`, or the greedy e-mail match) at the leftmost position where the pattern can match. The result is a piece of the input holding the mode's keyword case-insensitively, or an `@` |
| Text.StripNothing | LeadEntry/leadentry.py:198 | `strip()` leaves text with no whitespace at either end unchanged |
| Text.StripOneSpace | LeadEntry/leadentry.py:198 | `strip()` removes a single leading space from text with no whitespace at either end |
| Affiliation.RunTo | LeadEntry/leadentry.py:190-194 | a class run that stops at a character outside the class (or at the end) is the greedy run |
| Affiliation.NotKeyAt | LeadEntry/leadentry.py:190-193 | one character that differs case-insensitively from the keyword rules the keyword out at that position |
| Affiliation.LastKeyAtIs | LeadEntry/leadentry.py:190-193 | the backtracking lead run settles on a keyword position when no keyword lies further right within its reach |
| Affiliation.AltMatchAtFound | LeadEntry/leadentry.py:190-193 | the match of one alternative, given where its lead run stops and where its last reachable keyword is: keyword span, optional atom, greedy tail |
| Affiliation.NoAltMatch | LeadEntry/leadentry.py:190-193 | an alternative cannot match at a position when its lead run is cut before any keyword |
| Affiliation.SearchAt | LeadEntry/leadentry.py:196 | `re.search` reports the match at a position where the pattern matches and nowhere before |
| Affiliation.MatchAtFirstAlt | LeadEntry/leadentry.py:190-193 | when the first alternative can match at a position, the match there is that alternative's |
| Affiliation.SearchFirstAlt | LeadEntry/leadentry.py:196 | the search reports the first alternative's match at a position where its keyword is within reach and the pattern matches nowhere before |
| Affiliation.NoAtNoEmail | LeadEntry/leadentry.py:194-200 | an affiliation without an `@` yields Email `''` |
| AffiliationExample.DeptSpanOf | LeadEntry/leadentry.py:190-191 | on a text opening with `Department`, a run of word characters and spaces to a comma at 28 and no further `d`, the Department match is `[0, 28)` |
| AffiliationExample.YaleDepartment | LeadEntry/leadentry_test.py:52-53 | every affiliation beginning `Department of Anesthesiology, Yale University,` gives Department `"Department of Anesthesiology"` |
| AffiliationExample.NoCompanyBefore | LeadEntry/leadentry.py:192-193 | none of `Universit[y\|aria]`, `Institut`, `ETH` can match at or before a character that ends every lead run, when no `u` lies within reach and no `h` within reach has an `e` two places before it |
| AffiliationExample.CompanySpanOf | LeadEntry/leadentry.py:192-193 | on a text with those character facts, the Company match is `" Yale University"`, `[29, 45)` |
| AffiliationExample.YaleCompany | LeadEntry/leadentry_test.py:49-50 | every affiliation beginning `Department of Anesthesiology, Yale University,` gives Company `"Yale University"` |
| AffiliationExample.YaleTestAffiliation | LeadEntry/leadentry_test.py:44-53 | on the test's whole affiliation: Company `"Yale University"`, Department `"Department of Anesthesiology"`, Email `''` |
| Authors.FirstName | LeadEntry/leadentry.py:159-164 | the first name is a prefix of the stripped forename without any space, ended by a space or by the end of the forename |
| Authors.FirstNameUnique | LeadEntry/leadentry.py:159-164 | those three facts determine the first name |
| Authors.FirstNameExample | LeadEntry/leadentry.py:159-164 | forename `"Julio J"` gives first name `"Julio"` |
| Authors.WithAff | LeadEntry/leadentry.py:181-185 | `set_institute` on values: the new affiliation, with Company, Department and Email equal to `regex_search` of it; the names are unchanged |
| Authors.AuthorOf | LeadEntry/leadentry.py:146-170 | what the constructor builds: the first name, the stripped last name, the stripped affiliation (or `''`), and derived fields in sync with the affiliation |
| Authors.SameAffSameFields | LeadEntry/leadentry.py:172-185 | two authors in sync with the same affiliation have the same Company, Department and Email |
| Authors.WithOwnAff | LeadEntry/leadentry.py:181-185 | re-setting an author's own affiliation changes nothing |
| Authors.Author.constructor | LeadEntry/leadentry.py:146-154 | `Author(tag)` for an element with both names: the object's `info` is `AuthorOf(tag)` and its derived fields are in sync |
| Authors.Author.Parse | LeadEntry/leadentry.py:146-160 | `Author(tag)` raises `AttributeError` exactly when `forename` or `lastname` is missing; otherwise it gives a fresh author as above |
| Authors.Author.FindFirstName | LeadEntry/leadentry.py:159-164 | sets the first name and no other key |
| Authors.Author.FindLastName | LeadEntry/leadentry.py:156-157 | sets the stripped last name and no other key |
| Authors.Author.FindInstitute | LeadEntry/leadentry.py:166-170 | sets the stripped affiliation, or `''` without an affiliation element, and no other key |
| Authors.Author.FindDepartment | LeadEntry/leadentry.py:172-173 | sets Department to `regex_search` of the current affiliation and no other key |
| Authors.Author.FindCompany | LeadEntry/leadentry.py:175-176 | sets Company to `regex_search` of the current affiliation and no other key |
| Authors.Author.FindEmail | LeadEntry/leadentry.py:178-179 | sets Email to `regex_search` of the current affiliation and no other key |
| Authors.Author.SetInstitute | LeadEntry/leadentry.py:181-185 | whatever the state before, the author ends with the new affiliation and derived fields in sync with it; the names are kept |
| Dates.ReadFields | LeadEntry/leadentry.py:107-109 | reading the three fields of a date element fails with `AttributeError` exactly when one is missing; otherwise it gives the stripped texts |
| Dates.SelectFields | LeadEntry/leadentry.py:104-118 | date precedence: no `<PubDate>` raises `NameError`; a complete `<PubDate>` wins outright; otherwise an `<ArticleDate>` without `DateType` raises `KeyError`; an "Electronic" one is used whether or not it is complete; otherwise the medline date is used, `AttributeError` if there is none |
| Dates.SelectFieldsCases | LeadEntry/leadentry.py:104-118 | every record takes exactly one of those paths |
| Dates.NameFrom | LeadEntry/leadentry.py:122 | the month name spelt at a position, searched in calendar order |
| Dates.MatchMonthYear | LeadEntry/leadentry.py:120-122 | for a day alternative, the first month alternative after which four digits follow, and the date it reads |
| Dates.Strptime | LeadEntry/leadentry.py:119-122 | `time.strptime` with `%d%m%Y` or `%d%b%Y`: any result is a calendar date; every failure is `ValueError` |
| Dates.WholeValue | LeadEntry/leadentry.py:119-122 | the first alternative of a directive that covers the whole field, if any |
| Dates.ParseFields | LeadEntry/leadentry.py:119-122 | the day, month and year read field by field: any result is a calendar date; every failure is `ValueError` |
| Dates.DayValue | LeadEntry/leadentry.py:119-122 | a day field, by value: a non-zero digit, a space and a non-zero digit, or two digits; any day it gives is from 1 to 31 |
| Dates.MonthNumberValue | LeadEntry/leadentry.py:119-120 | a numeric month field, by value: one or two digits; any month it gives is from 1 to 12 |
| Dates.MonthNameValue | LeadEntry/leadentry.py:121-122 | a named month field, by value: any month it gives is from 1 to 12, and the field is exactly that month's three-letter name in some case |
| Dates.DayRead | LeadEntry/leadentry.py:119-122 | `%d` reads a whole day field exactly when `DayValue` gives a day, and reads that day |
| Dates.MonthNumberRead | LeadEntry/leadentry.py:119-120 | `%m` reads a whole all-digit month field exactly when `MonthNumberValue` gives a month, and reads that month |
| Dates.MonthNameRead | LeadEntry/leadentry.py:121-122 | `%b` reads a whole month field exactly when it spells a month name, and reads that month |
| Dates.YearRead | LeadEntry/leadentry.py:119-122 | `%Y` reads a four-character year field exactly when it is four digits, as their decimal value |
| Dates.ParseFieldsMeaning | LeadEntry/leadentry.py:119-122 | the field-by-field reading is the day, month and year values, the month numeric when the field is all digits (`month.isdigit()`) and named otherwise; the date when all three exist and it is a calendar date, `ValueError` in every other case |
| Dates.ParseFieldsExact | LeadEntry/leadentry.py:119-122 | the fields are read as date `d` if and only if their values are `d`'s day, month and year and `d` is a calendar date |
| Dates.FirstOfDecember | LeadEntry/leadentry.py:119-120 | day `"1"`, month `"12"`, year `"2014"` read field by field give 1 December 2014 |
| Dates.ConcatenationMisreads | LeadEntry/leadentry.py:119-120 | the same fields concatenated as the source does give 11 February 2014 |
| Dates.PaddedFieldsAgree | LeadEntry/leadentry.py:119-120 | with a two-digit day and a two-digit numeric month, the concatenation reads the intended date |
| Dates.NamedMonthAgrees | LeadEntry/leadentry.py:121-122 | with a month name, the concatenation reads the intended date whatever the day's width |
| Dates.Numeral | LeadEntry/leadentry.py:119 | the two-digit numeral of a month is a digit string |
| Dates.NumeralRead | LeadEntry/leadentry.py:119-120 | `%m` reads the numeral of month `m` as `m` |
| Dates.NameRead | LeadEntry/leadentry.py:121-122 | a month name, in any case, is not a digit string, and `%b` reads it as its month |
| Dates.NameUnique | LeadEntry/leadentry.py:122 | at most one month name is spelt at a position |
| Dates.NumeralAndName | LeadEntry/leadentry.py:119-122 | the numeral and the name of a month are read as the same month |
| Dates.MonthValueForms | LeadEntry/leadentry.py:119-122 | the numeral of month `m` and its name in any case both have month value `m` |
| Dates.SpelledDateRead | LeadEntry/leadentry.py:119-122 | fields spelling day `d`, month `m` (numeral or name) and year `y` are read as that date if it is a calendar date, and give `ValueError` otherwise |
| Dates.MonthFormsAgree | LeadEntry/leadentry.py:119-122 | whatever the day and year, the numeral and the name of a month give the same outcome |
| Dates.November26Numeric | LeadEntry/leadentry.py:119-120 | day `"26"`, month `"11"`, year `"2014"` give 26 November 2014 |
| Dates.November26Named | LeadEntry/leadentry.py:121-122 | day `"26"`, month `"Nov"`, year `"2014"` give the same date |
| Dates.November26 | LeadEntry/leadentry.py:119-122 | both spellings of that date, concatenated as the source does, give 26 November 2014 too |
| Articles.CleanTitle | LeadEntry/leadentry.py:101-102 | the cleaned title neither starts nor ends with `.` |
| Articles.CleanTitleIsInner | LeadEntry/leadentry.py:101-102 | the cleaned title is what is left of the whitespace-stripped title once its outer runs of `.` are gone |
| Articles.CleanTitleNotIdempotent | LeadEntry/leadentry.py:101-102 | cleaning is not idempotent: `". x ."` gives `" x "`, which a second pass turns into `"x"` |
| Articles.CleanTitleStable | LeadEntry/leadentry.py:101-102 | cleaning again changes nothing when no whitespace is exposed at the ends |
| Articles.DoiLink | LeadEntry/leadentry.py:125-130 | the link is the resolver prefix plus the stripped DOI when there is a DOI element, and it is exactly `'DOI not found'` exactly when there is none |
| Articles.DoiRoundTrip | LeadEntry/leadentry.py:125-130 | the stripped DOI can be read back from the link; the sentinel gives none back |
| Articles.LastAffNearest | LeadEntry/leadentry.py:133-140 | `prev_aff` after `i` authors is the affiliation of the nearest earlier author that has one, or `''` when none has |
| Articles.LastAffAt | LeadEntry/leadentry.py:133-140 | an author with an affiliation followed only by authors without one is the one `prev_aff` holds |
| Articles.CarryPrefix | LeadEntry/leadentry.py:135-141 | appending more authors does not change the ones already appended |
| Articles.CarryAt | LeadEntry/leadentry.py:135-141 | author `i` is settled with the affiliation carried to it, whatever follows |
| Articles.CarryForwardBuilt | LeadEntry/leadentry.py:135-141 | author `i` keeps its names; it keeps its own affiliation and fields when it has one; otherwise it gets those of the nearest earlier author with an affiliation, or `''` when none has |
| Articles.CarryForward | LeadEntry/leadentry.py:132-141 | after `find_authors`: one author per tag, with the tag's names and its own stripped affiliation if non-empty, otherwise the affiliation of the nearest earlier tag with one (or `''`); the derived fields are in sync |
| Articles.CarryForwardEarlier | LeadEntry/leadentry.py:132-141 | the case of an author without an affiliation of its own, stated on the tags |
| Articles.CarriedMatchesSource | LeadEntry/leadentry.py:137-138 | an author whose affiliation is carried from an earlier one gets the same affiliation, Company, Department and Email as that author |
| Articles.FoldAuthors | LeadEntry/leadentry.py:132-141 | the loop as a left fold: one author appended per step |
| Articles.FoldIsCarry | LeadEntry/leadentry.py:132-141 | after `n` steps the fold holds `prev_aff` equal to the last non-empty affiliation so far and the carried authors |
| Articles.FoldMatchesLoop | LeadEntry/leadentry.py:132-141 | the fold over the built authors gives the carried authors |
| Articles.FirstUnnamed | LeadEntry/leadentry.py:135-136 | the first author tag without both names, where the loop raises |
| Articles.FirstUnnamedIsFirst | LeadEntry/leadentry.py:135-136 | any position with that description is the one `FirstUnnamed` finds |
| Articles.DateOf | LeadEntry/leadentry.py:104-123 | `find_date` with the corrected reading: the chosen fields' error, or, when the fields are there, the outcome of reading them one by one; any date is a calendar date and any other failure is `ValueError` |
| Articles.DateOfExact | LeadEntry/leadentry.py:104-123 | `find_date` gives date `d` if and only if the chosen fields are there, their values are `d`'s day, month and year, and `d` is a calendar date |
| Articles.ArticleOf | LeadEntry/leadentry.py:92-99 | `Article(tag)` on values: a missing title raises `AttributeError`, then the date's error, then `AttributeError` for an author without both names; otherwise the record holds the cleaned title, the date, the DOI link and the carried authors |
| Articles.InfosSnoc | LeadEntry/leadentry.py:141 | appending an author object appends its `info` |
| Articles.Infos | LeadEntry/leadentry.py:141 | the `info` of each author object, in order |
| Articles.Article.Parse | LeadEntry/leadentry.py:92-99 | `Article(tag)` on the object: it fails exactly when `ArticleOf` does, with the same error; otherwise a fresh object that holds `ArticleOf(tag)` |
| Articles.Article.FindTitle | LeadEntry/leadentry.py:101-102 | a missing title raises `AttributeError`; otherwise the title is the cleaned one and nothing else changes |
| Articles.Article.FindDate | LeadEntry/leadentry.py:104-123 | the date is the one `DateOf` gives, or the method reports its error; nothing else changes |
| Articles.Article.FindDoi | LeadEntry/leadentry.py:125-130 | the link is `DoiLink` of the DOI element and nothing else changes |
| Articles.Article.NewAuthor | LeadEntry/leadentry.py:136-140 | the body of one iteration: a fresh author, given `prev_aff` when it has no affiliation; the new `prev_aff` is its own affiliation when it has one |
| Articles.Article.AppendAuthor | LeadEntry/leadentry.py:136-141 | one iteration: the new author appended; the authors before it untouched |
| Articles.Article.AppendNext | LeadEntry/leadentry.py:136-141 | one iteration stated on the built authors: `prev_aff` moves on to the last non-empty affiliation |
| Articles.Article.AppendAll | LeadEntry/leadentry.py:133-141 | the loop: it stops at the first tag without both names, and the authors appended are the carried ones |
| Articles.Article.FindAuthors | LeadEntry/leadentry.py:132-141 | `find_authors`: `AttributeError` exactly when some tag lacks a name; the authors appended are `CarryAuthors` of the named tags before it; the article's `info` is unchanged |
| Newsletter.DigitRun | LeadEntry/leadentry.py:66 | a greedy `\d+`: digits, followed by a non-digit or the end |
| Newsletter.VolumeFrom | LeadEntry/leadentry.py:66 | `\d+` backtracks from its longest run: the match has its `.` at the rightmost workable position |
| Newsletter.VolumeAtMeaning | LeadEntry/leadentry.py:66 | `\d+.\d+` matches at a position exactly when some cut works there; the match takes the rightmost cut and the whole second run of digits |
| Newsletter.FirstVolume | LeadEntry/leadentry.py:66-67 | `re.findall(...)[0]`: the match at the leftmost position where the pattern matches |
| Newsletter.SpecificLeadSource | LeadEntry/leadentry.py:63-67 | every failure is `IndexError` |
| Newsletter.SpecificLeadSourceMeaning | LeadEntry/leadentry.py:63-67 | the lead source is found exactly when the title has a `' - '` and a volume before it; it is the text after the first separator up to the next, a space, and the leftmost volume before the first separator |
| Newsletter.YearIsVolume | LeadEntry/leadentry.py:66 | a four-digit year such as `"2014"` is a volume too: `"2014"` itself, cut after `"20"` |
| Newsletter.LeadSourceExample | LeadEntry/leadentry.py:63-67 | title `"v2.1 - N"` gives `"N 2.1"` |
| Newsletter.InfoOf | LeadEntry/leadentry.py:25-28 | the newsletter's `info`: lead source `'Connexon'`, the specific lead source, the page address, and the search term `'Connexon; '` followed by the specific lead source; it fails when the lead source does |
| Newsletter.MergePrecedence | LeadEntry/leadentry.py:83 | the merged row has the keys of all three dictionaries and takes each from the last one that has it: the newsletter over the article over the author |
| Newsletter.RowKeys | LeadEntry/leadentry.py:83 | the three dictionaries have exactly their own keys |
| Newsletter.OwnValue | LeadEntry/leadentry.py:83 | each key's value in its own dictionary |
| Newsletter.RowValues | LeadEntry/leadentry.py:83 | the dictionaries share no key, so the row has every key, each with its own source's value |
| Newsletter.RowsCount | LeadEntry/leadentry.py:81-84 | one row per (article, author) pair |
| Newsletter.AuthorCountPrefix | LeadEntry/leadentry.py:81-82 | the authors of earlier articles and the article's own fit in the total |
| Newsletter.RowsOrder | LeadEntry/leadentry.py:81-84 | article-then-author order: row `j` of article `a` comes after the rows of every earlier article, and it is author `j`'s row merged with article `a`'s and the newsletter's `info` |
| Newsletter.EveryRowRejected | LeadEntry/leadentry.py:76-84 | as written, every row carries `'Aff'`, which is no column, so `writerow` raises `ValueError` |
| Newsletter.LineKeepsFields | LeadEntry/leadentry.py:76-84 | with the extra key ignored, the line has one value per column, in header order, each from its own source |
| Newsletter.LinesSnoc | LeadEntry/leadentry.py:84 | one more row writes one more line |
| Newsletter.ArticleLinesStep | LeadEntry/leadentry.py:82-84 | the lines of an article's first `j + 1` authors are those of the first `j`, then author `j`'s |
| Newsletter.LinesAppend | LeadEntry/leadentry.py:81-84 | writing two lists of rows one after the other writes the lines of both |
| Newsletter.LinesStep | LeadEntry/leadentry.py:81-84 | the lines of the first `i + 1` articles are those of the first `i`, then those of article `i` |
| Newsletter.Records | LeadEntry/leadentry.py:81 | what the article objects hold, in order |
| Newsletter.CsvFile.WriteLine | LeadEntry/leadentry.py:84 | one line appended to the file |
| Newsletter.CsvFile.Close | LeadEntry/leadentry.py:86 | the file is closed and its lines are kept |
| Newsletter.Newsletter.WriteArticle | LeadEntry/leadentry.py:82-84 | the inner loop: the lines of the article's rows, author by author, appended to the file |
| Newsletter.Newsletter.WriteCsv | LeadEntry/leadentry.py:74-86 | `write_csv` with the extra key ignored: the header, then one line per (article, author) pair in article-then-author order; then the file is closed |

## Left out

- Fetching the newsletter page and the PubMed records (`make_soup`, `fetch_from_pubmed`, `lookup_up_title`), the interactive prompts (`manual_pmid`, `url_wrapper`), and `Newsletter.__init__` as a whole. The model starts from the parsed records. The page title and page address are parameters of `SpecificLeadSource` and `InfoOf`.
- `parse_connexon`, `_find_comment`, `_find_lead_source` and `parse_pubmed_soup` depend on BeautifulSoup's tag API. Tags are datatypes whose optional children stand for what `tag.child` finds. `soup.find('title')` finding nothing, which raises `AttributeError`, is outside `SpecificLeadSource`, which takes the title text.
- The module-level `write_record` and `write_csv`. They call functions the file does not define, so they cannot run, and City, State, Country and Postal Code have no source to model.
- Case-insensitive matching folds ASCII letters only. `\w` under `re.UNICODE` is the ASCII word characters plus the Latin-1 alphanumerics. Characters above U+00FF count as non-word characters.
- `time.struct_time` is modelled as the `Date` triple. Only its year, month and day are modelled.
- Articles.Article.Empty: the finders are run one after another on an object whose keys hold placeholder values. The source's `info` starts as an empty dict; a key that was never written cannot be read by any modelled step.
- Articles.Article.FindAuthors: does not state that the appended `Author` objects are fresh; `AppendAll` and `AppendAuthor` do state their lengths and that earlier entries are kept.
- Newsletter.CsvFile.WriteLine: writing to a closed file is a precondition, not a modelled error. The source never does it.
- Newsletter.Newsletter.WriteCsv: models `DictWriter` with the extra key ignored (see the finding below). Values are written as `Value`s, not as text, and quoting and line endings are not modelled.
- Articles.DateOf: the date is read field by field (`Dates.ParseFields`), the corrected reading of the first finding below, not the concatenated text `time.strptime` parses (LeadEntry/leadentry.py:119-122). The two readings are proved to agree, whenever the fields make a date, when the day and a numeric month both have two characters (`Dates.PaddedFieldsAgree`) and whenever the month is a name (`Dates.NamedMonthAgrees`). They differ when a one-character numeric day precedes a numeric month (`Dates.ConcatenationMisreads`); other widths of a numeric day and month are not compared.
- Articles.Article.FindDate: reads the date as `Articles.DateOf` does, so with the same corrected reading.
- Articles.ArticleOf: reads the date as `Articles.DateOf` does, so with the same corrected reading.
- Behaviours of the code that the model keeps as they are:
  - `find_title` strips every leading and trailing `.`, after the whitespace (LeadEntry/leadentry.py:102).
  - With no `<PubDate>`, `year`, `month` and `day` stay unbound, so the `month.isdigit()` test raises `NameError` (LeadEntry/leadentry.py:105-119).
  - An "Electronic" `<ArticleDate>` is used even when a child is missing, and the missing child raises `AttributeError` (LeadEntry/leadentry.py:111-114).
  - An author without both names raises `AttributeError` in `Author`, which ends `find_authors` for the whole article (LeadEntry/leadentry.py:133-136).
  - The columns are the twelve `field_names`, in their order (LeadEntry/leadentry.py:76-78).

## Findings

| source | as written | input that shows it | evidently intended | confidence | as-written member | corrected member |
|---|---|---|---|---|---|---|
| LeadEntry/leadentry.py:119-122 | the day, month and year are concatenated with `'{}{}{}'` and parsed as one string by `strptime('%d%m%Y')`, whose `%d` is tried two characters first | day `"1"`, month `"12"`, year `"2014"`: the text `"1122014"` is read as 11 February 2014 | the three fields read separately: 1 December 2014 | high (not executed) | Dates.ConcatenationMisreads | Dates.ParseFields (with Dates.ParseFieldsMeaning, Dates.FirstOfDecember, Dates.PaddedFieldsAgree, Dates.NamedMonthAgrees; used by Articles.DateOf) |
| LeadEntry/leadentry.py:76-84 | `csv.DictWriter(csv_file, fieldnames=field_names)` keeps the default `extrasaction='raise'`, and every merged row carries the author's `'Aff'` key, which is not among `field_names` (LeadEntry/leadentry.py:168) | any newsletter with at least one article with at least one author: the first `writerow` raises `ValueError` | `'Aff'` ignored (`extrasaction='ignore'`), one line per (article, author) pair | high (not executed) | Newsletter.EveryRowRejected (on Newsletter.LineAsWritten) | Newsletter.LineKeepsFields (on Newsletter.Line, which Newsletter.Newsletter.WriteCsv writes) |
