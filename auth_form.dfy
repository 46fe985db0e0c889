/**
  Sign-up's institution detection: the e-mail's domain, whether it belongs to
  a Rwandan academic institution, and the role written into a profile row
  created at sign-up.
*/
module AuthForm {
  import opened Text

  /** The domain suffixes that mark an institution. */
  const INSTITUTION_DOMAINS: seq<string> := ["ur.ac.rw", "ac.rw", "edu.rw", "school.rw"]

  /** What `detectInstitution` returns. */
  datatype Detection = Detection(isInstitution: bool, domain: string)

  /** `email.split('@')[1] || ''`. */
  function Domain(email: string): string {
    var pieces := SplitOnChar(email, '@');
    if |pieces| >= 2 then pieces[1] else ""
  }

  /** `domains.some(d => domain.includes(d))`. */
  function SomeIncluded(domain: string, domains: seq<string>): (b: bool)
    ensures b <==> exists d :: d in domains && Occurs(d, domain)
  {
    if domains == [] then false
    else if Includes(domain, domains[0]) then true
    else
      var b := SomeIncluded(domain, domains[1..]);
      assert forall d :: d in domains <==> d == domains[0] || d in domains[1..];
      b
  }

  function DetectInstitution(email: string): Detection {
    var domain := Domain(email);
    Detection(SomeIncluded(domain, INSTITUTION_DOMAINS), domain)
  }

  /** The profile row inserted when the profile update fails. */
  datatype ProfileInsert = ProfileInsert(
    id: string, email: string, fullName: string, schoolName: string,
    role: string, institutionDomain: string)

  function SignupProfile(id: string, email: string, fullName: string, schoolName: string): ProfileInsert {
    var detection := DetectInstitution(email);
    ProfileInsert(id, email, fullName, schoolName,
                  if detection.isInstitution then "institution" else "student",
                  detection.domain)
  }

  // ---------------------------------------------------------------------------
  // Properties
  // ---------------------------------------------------------------------------

  /** The first piece of a split is the text before the first separator. */
  lemma {:induction false} FirstPiece(s: string, c: char)
    ensures SplitOnChar(s, c)[0] == s[..IndexOf(s, c)]
  {
  }

  /** The domain is the text between the first `@` and the next `@` (or the
      end), and is empty when there is no `@`; it never holds an `@`. */
  lemma {:induction false} DomainBetweenAts(email: string)
    ensures var i := IndexOf(email, '@');
      && (i == |email| ==> Domain(email) == "")
      && (i < |email| ==>
            var rest := email[i + 1..];
            Domain(email) == rest[..IndexOf(rest, '@')])
    ensures '@' !in Domain(email)
  {
    var i := IndexOf(email, '@');
    if i < |email| {
      var rest := email[i + 1..];
      assert SplitOnChar(email, '@') == [email[..i]] + SplitOnChar(rest, '@');
      FirstPiece(rest, '@');
    }
  }

  /** An institution iff one of the four suffixes occurs in the domain. */
  lemma {:induction false} InstitutionIff(email: string)
    ensures DetectInstitution(email).isInstitution <==>
      exists d :: d in INSTITUTION_DOMAINS && Occurs(d, Domain(email))
    ensures DetectInstitution(email).domain == Domain(email)
  {
  }

  /** `ur.ac.rw` contains `ac.rw`, so it adds nothing: the test is the same as
      one for `ac.rw`, `edu.rw` or `school.rw`, and every domain containing
      `ac.rw` is an institution. */
  lemma {:induction false} AcRwSubsumes(email: string)
    ensures DetectInstitution(email).isInstitution <==>
      Occurs("ac.rw", Domain(email)) || Occurs("edu.rw", Domain(email)) || Occurs("school.rw", Domain(email))
  {
    var domain := Domain(email);
    InstitutionIff(email);
    assert OccursAt("ac.rw", "ur.ac.rw", 3);
    if Occurs("ur.ac.rw", domain) {
      OccursTransitive("ac.rw", "ur.ac.rw", domain);
    }
    if Occurs("ac.rw", domain) {
      assert INSTITUTION_DOMAINS[1] == "ac.rw";
    }
    if Occurs("edu.rw", domain) {
      assert INSTITUTION_DOMAINS[2] == "edu.rw";
    }
    if Occurs("school.rw", domain) {
      assert INSTITUTION_DOMAINS[3] == "school.rw";
    }
  }

  /** No suffix occurs in an empty domain, e.g. that of an address without
      `@`, so it is never an institution. */
  lemma {:induction false} NothingIncludedInEmpty(domains: seq<string>)
    requires "" !in domains
    ensures !SomeIncluded("", domains)
  {
    if SomeIncluded("", domains) {
      var d :| d in domains && Occurs(d, "");
      OccursInEmpty(d);
    }
  }

  lemma {:induction false} EmptyDomainIsNotInstitution(email: string)
    requires Domain(email) == ""
    ensures !DetectInstitution(email).isInstitution
  {
    NothingIncludedInEmpty(INSTITUTION_DOMAINS);
  }

  /** The inserted profile's role is `institution` iff the address is an
      institution's, and `student` otherwise. */
  lemma {:induction false} SignupRole(id: string, email: string, fullName: string, schoolName: string)
    ensures var p := SignupProfile(id, email, fullName, schoolName);
      && (p.role == "institution" <==> DetectInstitution(email).isInstitution)
      && (p.role == "student" <==> !DetectInstitution(email).isInstitution)
      && p.institutionDomain == Domain(email)
  {
  }

  /** An address with one `@` has the text after it as its domain. */
  lemma {:induction false} DomainOfAddress(local: string, domain: string)
    requires '@' !in local && '@' !in domain
    ensures Domain(local + "@" + domain) == domain
  {
    var email := local + "@" + domain;
    assert email[|local|] == '@';
    assert forall k :: 0 <= k < |local| ==> email[k] == local[k];
    var i := IndexOf(email, '@');
    assert i == |local|;
    assert email[i + 1..] == domain;
    assert IndexOf(domain, '@') == |domain|;
    assert SplitOnChar(domain, '@') == [domain];
    assert SplitOnChar(email, '@') == [email[..i]] + [domain];
  }

  /** Every suffix ends in `rw`, so a domain without a `w` is never an
      institution's. */
  lemma {:induction false} NeedsW(email: string)
    requires 'w' !in Domain(email)
    ensures !DetectInstitution(email).isInstitution
  {
    var domain := Domain(email);
    InstitutionIff(email);
    // Each window of the domain ends in a character other than `w`.
    forall d, i | d in INSTITUTION_DOMAINS && 0 <= i <= |domain| - |d|
      ensures !OccursAt(d, domain, i)
    {
      assert d[|d| - 1] == 'w';
      assert domain[i..i + |d|][|d| - 1] == domain[i + |d| - 1];
      assert domain[i + |d| - 1] in domain;
    }
  }

  /** For example, every `ur.ac.rw` address is an institution's, ... */
  lemma {:induction false} InstitutionExample(local: string)
    requires '@' !in local
    ensures DetectInstitution(local + "@ur.ac.rw") == Detection(true, "ur.ac.rw")
  {
    DomainOfAddress(local, "ur.ac.rw");
    assert local + "@" + "ur.ac.rw" == local + "@ur.ac.rw";
    InstitutionIff(local + "@ur.ac.rw");
    assert OccursAt("ur.ac.rw", "ur.ac.rw", 0);
  }

  /** ... and no `gmail.com` address is. */
  lemma {:induction false} StudentExample(local: string)
    requires '@' !in local
    ensures DetectInstitution(local + "@gmail.com") == Detection(false, "gmail.com")
  {
    DomainOfAddress(local, "gmail.com");
    assert local + "@" + "gmail.com" == local + "@gmail.com";
    assert 'w' !in "gmail.com";
    NeedsW(local + "@gmail.com");
  }
}
