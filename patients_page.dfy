/** The patients page: the search box, the age shown on each card, and the
    edit form filled from a patient. */
module PatientsPage {
  import opened Common
  import opened Strings
  import PC = PatientContext

  /** The search test: case-insensitive on first name, last name and email,
      case-sensitive on phone. */
  predicate MatchesSearch(p: PC.Patient, term: string) {
    || Contains(Lower(p.firstName), Lower(term))
    || Contains(Lower(p.lastName), Lower(term))
    || Contains(Lower(p.email), Lower(term))
    || Contains(p.phone, term)
  }

  function SearchFor(term: string): PC.Patient -> bool {
    (p: PC.Patient) => MatchesSearch(p, term)
  }

  /** `filteredPatients`: the patients the search term finds, in order; the
      page then shows "Showing |r| of |ps|". */
  function FilteredPatients(ps: seq<PC.Patient>, term: string): (r: seq<PC.Patient>)
    ensures |r| <= |ps|
    ensures forall p :: p in r <==>
      (&& p in ps
       && (|| Contains(Lower(p.firstName), Lower(term))
           || Contains(Lower(p.lastName), Lower(term))
           || Contains(Lower(p.email), Lower(term))
           || Contains(p.phone, term)))
  {
    Filter(ps, SearchFor(term))
  }

  /** An empty search term lists every patient, in order. */
  lemma EmptySearchListsAll(ps: seq<PC.Patient>)
    ensures FilteredPatients(ps, "") == ps
  {
    forall i | 0 <= i < |ps|
      ensures SearchFor("")(ps[i])
    {
      assert IsPrefix("", ps[i].phone);
    }
    FilterAll(ps, SearchFor(""));
  }

  /** The name and email tests see the term only lower-cased, so two terms
      that differ only in letter case give the same answers there; only the
      phone test sees the term as typed. In particular a term and its
      lower-cased form agree on those tests. */
  lemma NameTestsIgnoreTermCase(p: PC.Patient, t1: string, t2: string)
    requires Lower(t1) == Lower(t2)
    ensures Contains(Lower(p.firstName), Lower(t1)) == Contains(Lower(p.firstName), Lower(t2))
    ensures Contains(Lower(p.lastName), Lower(t1)) == Contains(Lower(p.lastName), Lower(t2))
    ensures Contains(Lower(p.email), Lower(t1)) == Contains(Lower(p.email), Lower(t2))
    ensures Contains(Lower(p.firstName), Lower(t1)) == Contains(Lower(p.firstName), Lower(Lower(t1)))
  {
    LowerIdempotent(t1);
  }

  /** A calendar day as the `Date` getters report it. */
  datatype CivilDate = CivilDate(year: int, month: int, day: int)

  /** `a` is on or before `b`. */
  predicate OnOrBefore(a: CivilDate, b: CivilDate) {
    a.year < b.year || (a.year == b.year && (a.month < b.month || (a.month == b.month && a.day <= b.day)))
  }

  /** The k-th birthday anniversary has come by `today`. */
  predicate AnniversaryReached(birth: CivilDate, k: int, today: CivilDate) {
    OnOrBefore(CivilDate(birth.year + k, birth.month, birth.day), today)
  }

  datatype Age = Unknown | Years(n: int)

  /** `calculateAge`, given the date-of-birth text and the calendar days the
      page reads from it and from the clock: "Unknown" for an empty text,
      otherwise the number of birthdays reached, i.e. the largest k whose
      anniversary has come. */
  function CalculateAge(dateOfBirth: string, birth: CivilDate, today: CivilDate): (r: Age)
    ensures r.Unknown? <==> dateOfBirth == ""
    ensures r.Years? ==> AnniversaryReached(birth, r.n, today) && !AnniversaryReached(birth, r.n + 1, today)
  {
    if dateOfBirth == "" then Unknown
    else
      var age := today.year - birth.year;
      var monthDiff := today.month - birth.month;
      if monthDiff < 0 || (monthDiff == 0 && today.day < birth.day) then Years(age - 1) else Years(age)
  }

  /** Only one k has its anniversary reached and the next one not, so the
      characterization above fixes the age. */
  lemma AgeIsUnique(birth: CivilDate, today: CivilDate, k: int, j: int)
    requires AnniversaryReached(birth, k, today) && !AnniversaryReached(birth, k + 1, today)
    requires AnniversaryReached(birth, j, today) && !AnniversaryReached(birth, j + 1, today)
    ensures k == j
  {
  }

  /** The age never decreases as `today` moves forward. */
  lemma AgeMonotone(dob: string, birth: CivilDate, d1: CivilDate, d2: CivilDate)
    requires dob != "" && OnOrBefore(d1, d2)
    ensures CalculateAge(dob, birth, d1).n <= CalculateAge(dob, birth, d2).n
  {
  }

  /** The age is never negative for a birth on or before today. */
  lemma AgeNotNegative(dob: string, birth: CivilDate, today: CivilDate)
    requires dob != "" && OnOrBefore(birth, today)
    ensures CalculateAge(dob, birth, today).n >= 0
  {
    assert AnniversaryReached(birth, 0, today);
  }

  /** The edit form of the page. */
  datatype PatientForm = PatientForm(
    firstName: string,
    lastName: string,
    email: string,
    phone: string,
    dateOfBirth: string,
    gender: string,
    address: string,
    emergencyContact: string,
    medicalHistory: string)

  /** `x || ''` on an optional text. */
  function OrEmpty(o: Option<string>): (r: string)
    ensures o.Some? ==> r == o.value
    ensures o.None? ==> r == ""
  {
    o.GetOr("")
  }

  /** `openEditModal`: names and contacts copied; the date of birth cut
      before its first 'T'; gender always empty; missing optional texts
      become empty. */
  function OpenEditModal(p: PC.Patient): (f: PatientForm)
    ensures f.firstName == p.firstName && f.lastName == p.lastName
    ensures f.email == p.email && f.phone == p.phone
    ensures IsPrefix(f.dateOfBirth, p.dateOfBirth) && 'T' !in f.dateOfBirth
    ensures |f.dateOfBirth| == |p.dateOfBirth| || p.dateOfBirth[|f.dateOfBirth|] == 'T'
    ensures f.gender == ""
    ensures f.address == OrEmpty(p.address) && f.emergencyContact == OrEmpty(p.emergencyContact)
    ensures f.medicalHistory == OrEmpty(p.medicalHistory)
  {
    PatientForm(p.firstName, p.lastName, p.email, p.phone,
                if p.dateOfBirth != "" then FirstSegment(p.dateOfBirth, 'T') else "",
                "", OrEmpty(p.address), OrEmpty(p.emergencyContact), OrEmpty(p.medicalHistory))
  }
}
