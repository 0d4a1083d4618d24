/**
  `Author` (LeadEntry/leadentry.py): the contact fields derived from one PubMed `<author>` element.
  The first and last names come from the `forename` and `lastname` children, the affiliation from the
  optional `affiliation` child, and Company, Department and Email are `regex_search` of the
  affiliation. `set_institute` replaces the affiliation and recomputes the three derived fields.
*/
module Authors {
  import opened Wrappers
  import opened Text
  import opened Affiliation

  /** The children of an `<author>` element the code reads (`None`: the child is absent). */
  datatype AuthorTag = AuthorTag(lastName: Option<string>, foreName: Option<string>, affiliation: Option<string>)

  /** `Author.info`, key by key. */
  datatype AuthorInfo = AuthorInfo(
    firstName: string,   // 'First Name'
    lastName: string,    // 'Last Name'
    aff: string,         // 'Aff'
    company: string,     // 'Company'
    department: string,  // 'Department'
    email: string)       // 'Email'

  /** The construction reads `forename` and `lastname` unguarded: without either it raises `AttributeError`. */
  predicate HasNames(tag: AuthorTag) {
    tag.lastName.Some? && tag.foreName.Some?
  }

  /** Company, Department and Email are what `regex_search` finds in the affiliation. */
  predicate InSync(a: AuthorInfo) {
    && a.company == RegexSearch(a.aff, Company)
    && a.department == RegexSearch(a.aff, Department)
    && a.email == RegexSearch(a.aff, Email)
  }

  // ---------------------------------------------------------------------------
  // The field finders, on values

  /** `find_first_name`: the first `' '`-separated piece of the stripped forename. */
  function FirstName(foreName: string): (r: string)
    ensures ' ' !in r
    ensures r <= StripSpace(foreName)
    ensures |r| == |StripSpace(foreName)| || StripSpace(foreName)[|r|] == ' '
  {
    var s := StripSpace(foreName);
    SplitHead(s, " ");
    var i := IndexOf(s, " ", 0);
    assert forall k :: 0 <= k < i ==> s[k] != ' ' by {
      forall k | 0 <= k < i ensures s[k] != ' ' {
        assert !OccursAt(s, " ", k);
        assert s[k..k + 1] == [s[k]];
      }
    }
    assert i < |s| ==> s[i] == ' ' by {
      if i < |s| { assert OccursAt(s, " ", i); assert s[i..i + 1] == [s[i]]; }
    }
    Split(s, " ")[0]
  }

  /** The first name is determined by those three facts: a space-free prefix ended by a space or by the end. */
  lemma FirstNameUnique(foreName: string, r: string)
    requires ' ' !in r && r <= StripSpace(foreName)
    requires |r| == |StripSpace(foreName)| || StripSpace(foreName)[|r|] == ' '
    ensures r == FirstName(foreName)
  {
    var s := StripSpace(foreName);
    var f := FirstName(foreName);
    assert forall k :: 0 <= k < |r| ==> s[k] == r[k] != ' ';
    assert forall k :: 0 <= k < |f| ==> s[k] == f[k] != ' ';
  }

  /** "Julio J" gives "Julio". */
  lemma FirstNameExample()
    ensures FirstName("Julio J") == "Julio"
  {
    assert StripSpace("Julio J") == "Julio J" by {
      StripUnique("Julio J", "Julio J", Spaces, 0);
    }
    FirstNameUnique("Julio J", "Julio");
  }

  /** `find_institute`: the stripped affiliation text, or "" when there is no `affiliation` child. */
  function AffOf(tag: AuthorTag): string {
    match tag.affiliation
    case Some(text) => StripSpace(text)
    case None => ""
  }

  /** `set_institute(aff)` on values: the new affiliation and the three fields derived from it. */
  function WithAff(a: AuthorInfo, aff: string): (r: AuthorInfo)
    ensures InSync(r) && r.aff == aff
    ensures r.firstName == a.firstName && r.lastName == a.lastName
  {
    a.(aff := aff, company := RegexSearch(aff, Company), department := RegexSearch(aff, Department),
       email := RegexSearch(aff, Email))
  }

  /** What the constructor leaves in `info` for an element with both names. */
  function AuthorOf(tag: AuthorTag): (a: AuthorInfo)
    requires HasNames(tag)
    ensures InSync(a)
    ensures a.firstName == FirstName(tag.foreName.value) && a.lastName == StripSpace(tag.lastName.value)
    ensures a.aff == AffOf(tag)
  {
    WithAff(AuthorInfo(FirstName(tag.foreName.value), StripSpace(tag.lastName.value), "", "", "", ""), AffOf(tag))
  }

  /** Once in sync, the derived fields are a function of the affiliation alone. */
  lemma SameAffSameFields(a: AuthorInfo, b: AuthorInfo)
    requires InSync(a) && InSync(b) && a.aff == b.aff
    ensures a.company == b.company && a.department == b.department && a.email == b.email
  {
  }

  /** Re-setting an author's own affiliation changes nothing. */
  lemma WithOwnAff(a: AuthorInfo)
    requires InSync(a)
    ensures WithAff(a, a.aff) == a
  {
  }

  // ---------------------------------------------------------------------------
  // The object

  class Author {
    var firstName: string
    var lastName: string
    var aff: string
    var company: string
    var department: string
    var email: string

    /** The `info` dictionary. */
    function Info(): AuthorInfo
      reads this
    {
      AuthorInfo(firstName, lastName, aff, company, department, email)
    }

    predicate Valid()
      reads this
    {
      InSync(Info())
    }

    /** `Author(tag)` for an element with both names; `Parse` is the version that can raise. */
    constructor (tag: AuthorTag)
      requires HasNames(tag)
      ensures Info() == AuthorOf(tag) && Valid()
    {
      firstName, lastName, aff, company, department, email := "", "", "", "", "", "";
      new;
      FindFirstName(tag.foreName.value);
      FindLastName(tag.lastName.value);
      FindInstitute(tag.affiliation);
      FindDepartment();
      FindCompany();
      FindEmail();
    }

    /** `Author(tag)`: raises `AttributeError` when `forename` or `lastname` is missing. */
    static method Parse(tag: AuthorTag) returns (r: Result<Author, Raised>)
      ensures r.Failure? <==> !HasNames(tag)
      ensures r.Failure? ==> r.error == AttributeError
      ensures r.Success? ==> fresh(r.value) && r.value.Info() == AuthorOf(tag) && r.value.Valid()
    {
      if !HasNames(tag) {
        return Failure(AttributeError);
      }
      var author := new Author(tag);
      return Success(author);
    }

    method FindFirstName(foreName: string)
      modifies this
      ensures Info() == old(Info()).(firstName := FirstName(foreName))
    {
      firstName := FirstName(foreName);
    }

    method FindLastName(lastName': string)
      modifies this
      ensures Info() == old(Info()).(lastName := StripSpace(lastName'))
    {
      lastName := StripSpace(lastName');
    }

    method FindInstitute(affiliation: Option<string>)
      modifies this
      ensures Info() == old(Info()).(aff := AffOf(AuthorTag(None, None, affiliation)))
    {
      match affiliation
      case Some(text) => aff := StripSpace(text);
      case None => aff := "";
    }

    method FindDepartment()
      modifies this
      ensures Info() == old(Info()).(department := RegexSearch(aff, Department))
    {
      department := RegexSearch(aff, Department);
    }

    method FindCompany()
      modifies this
      ensures Info() == old(Info()).(company := RegexSearch(aff, Company))
    {
      company := RegexSearch(aff, Company);
    }

    method FindEmail()
      modifies this
      ensures Info() == old(Info()).(email := RegexSearch(aff, Email))
    {
      email := RegexSearch(aff, Email);
    }

    /** `set_institute(aff)`: whatever the state before, the author is in sync afterwards. */
    method SetInstitute(aff': string)
      modifies this
      ensures Info() == WithAff(old(Info()), aff')
      ensures Valid()
    {
      aff := aff';
      FindCompany();
      FindDepartment();
      FindEmail();
    }
  }
}
