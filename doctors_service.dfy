/** The doctors table behind the backend service: reads see active rows
    only, removal clears `isActive` instead of deleting, and a search builds
    its `where` dictionary one optional filter at a time. */
module DoctorsService {
  import opened Common
  import opened Strings

  datatype Gender = Male | Female | Other

  datatype DoctorStatus = Active | OnLeave | Break | Inactive

  datatype Doctor = Doctor(
    id: int,
    firstName: string,
    lastName: string,
    email: string,
    phone: string,
    specialization: string,
    gender: Gender,
    location: string,
    availability: Option<string>,
    isActive: bool,
    status: DoctorStatus)

  function IsActiveDoctor(d: Doctor): bool {
    d.isActive
  }

  function ActiveWithId(id: int): Doctor -> bool {
    (d: Doctor) => d.id == id && d.isActive
  }

  ghost predicate IdsDistinct(rows: seq<Doctor>) {
    forall i, j :: 0 <= i < j < |rows| ==> rows[i].id != rows[j].id
  }

  /** The optional query of `searchDoctors`. */
  datatype SearchFilters = SearchFilters(
    specialization: Option<string>,
    location: Option<string>,
    gender: Option<Gender>,
    status: Option<DoctorStatus>)

  /** JavaScript truthiness of an optional string: present and not empty. */
  predicate Given(o: Option<string>) {
    o.Some? && o.value != ""
  }

  /** The keys of the `where` dictionary and the conditions stored there;
      `Like(f)` is the pattern `%f%`. */
  datatype Column = IsActiveColumn | SpecializationColumn | LocationColumn | GenderColumn | StatusColumn

  datatype Condition = EqualsBool(b: bool) | Like(fragment: string) | EqualsGender(g: Gender) | EqualsStatus(s: DoctorStatus)

  /** A row meets one stored condition. A condition of the wrong kind for its
      column matches nothing. */
  predicate Satisfies(d: Doctor, c: Column, cond: Condition) {
    match (c, cond)
    case (IsActiveColumn, EqualsBool(b)) => d.isActive == b
    case (SpecializationColumn, Like(f)) => Contains(d.specialization, f)
    case (LocationColumn, Like(f)) => Contains(d.location, f)
    case (GenderColumn, EqualsGender(g)) => d.gender == g
    case (StatusColumn, EqualsStatus(s)) => d.status == s
    case _ => false
  }

  /** What `find({ where })` selects: rows meeting every stored condition. */
  function MatchesWhere(where: map<Column, Condition>): Doctor -> bool {
    (d: Doctor) => forall c | c in where :: Satisfies(d, c, where[c])
  }

  /** The search stated directly: active, and each given filter holds, a
      fragment of the column for the two text filters, equality for the
      two enumerations. */
  predicate MatchesFilters(d: Doctor, f: SearchFilters) {
    && d.isActive
    && (Given(f.specialization) ==> Contains(d.specialization, f.specialization.value))
    && (Given(f.location) ==> Contains(d.location, f.location.value))
    && (f.gender.Some? ==> d.gender == f.gender.value)
    && (f.status.Some? ==> d.status == f.status.value)
  }

  predicate NoFilters(f: SearchFilters) {
    !Given(f.specialization) && !Given(f.location) && f.gender.None? && f.status.None?
  }

  /** The `where` dictionary of `searchDoctors`, built in place: `isActive`
      always, each other key only when its filter is given. */
  method BuildWhere(f: SearchFilters) returns (where: map<Column, Condition>)
    ensures IsActiveColumn in where && where[IsActiveColumn] == EqualsBool(true)
    ensures SpecializationColumn in where <==> Given(f.specialization)
    ensures SpecializationColumn in where ==> where[SpecializationColumn] == Like(f.specialization.value)
    ensures LocationColumn in where <==> Given(f.location)
    ensures LocationColumn in where ==> where[LocationColumn] == Like(f.location.value)
    ensures GenderColumn in where <==> f.gender.Some?
    ensures GenderColumn in where ==> where[GenderColumn] == EqualsGender(f.gender.value)
    ensures StatusColumn in where <==> f.status.Some?
    ensures StatusColumn in where ==> where[StatusColumn] == EqualsStatus(f.status.value)
  {
    where := map[IsActiveColumn := EqualsBool(true)];
    if Given(f.specialization) {
      where := where[SpecializationColumn := Like(f.specialization.value)];
    }
    if Given(f.location) {
      where := where[LocationColumn := Like(f.location.value)];
    }
    if f.gender.Some? {
      where := where[GenderColumn := EqualsGender(f.gender.value)];
    }
    if f.status.Some? {
      where := where[StatusColumn := EqualsStatus(f.status.value)];
    }
  }

  /** A dictionary with the keys `BuildWhere` promises selects exactly the
      rows the direct statement of the search describes. */
  lemma WhereMeansFilters(f: SearchFilters, where: map<Column, Condition>, d: Doctor)
    requires IsActiveColumn in where && where[IsActiveColumn] == EqualsBool(true)
    requires SpecializationColumn in where <==> Given(f.specialization)
    requires SpecializationColumn in where ==> where[SpecializationColumn] == Like(f.specialization.value)
    requires LocationColumn in where <==> Given(f.location)
    requires LocationColumn in where ==> where[LocationColumn] == Like(f.location.value)
    requires GenderColumn in where <==> f.gender.Some?
    requires GenderColumn in where ==> where[GenderColumn] == EqualsGender(f.gender.value)
    requires StatusColumn in where <==> f.status.Some?
    requires StatusColumn in where ==> where[StatusColumn] == EqualsStatus(f.status.value)
    ensures MatchesWhere(where)(d) <==> MatchesFilters(d, f)
  {
    if MatchesWhere(where)(d) {
      assert Satisfies(d, IsActiveColumn, where[IsActiveColumn]);
      if Given(f.specialization) {
        assert Satisfies(d, SpecializationColumn, where[SpecializationColumn]);
      }
      if Given(f.location) {
        assert Satisfies(d, LocationColumn, where[LocationColumn]);
      }
      if f.gender.Some? {
        assert Satisfies(d, GenderColumn, where[GenderColumn]);
      }
      if f.status.Some? {
        assert Satisfies(d, StatusColumn, where[StatusColumn]);
      }
    }
    if MatchesFilters(d, f) {
      forall c | c in where
        ensures Satisfies(d, c, where[c])
      {
        match c
        case IsActiveColumn =>
        case SpecializationColumn =>
        case LocationColumn =>
        case GenderColumn =>
        case StatusColumn =>
      }
    }
  }

  /** The table after `update(id, { isActive: false })`. */
  function Deactivated(rows: seq<Doctor>, id: int): (r: seq<Doctor>)
    ensures |r| == |rows|
    ensures forall i :: 0 <= i < |rows| ==>
      r[i] == if rows[i].id == id then rows[i].(isActive := false) else rows[i]
    ensures IdsDistinct(rows) ==> IdsDistinct(r)
  {
    seq(|rows|, i requires 0 <= i < |rows| =>
      if rows[i].id == id then rows[i].(isActive := false) else rows[i])
  }

  /** The table after `update(id, { status })`: `isActive` is untouched. */
  function WithDoctorStatus(rows: seq<Doctor>, id: int, s: DoctorStatus): (r: seq<Doctor>)
    ensures |r| == |rows|
    ensures forall i :: 0 <= i < |rows| ==>
      r[i] == if rows[i].id == id then rows[i].(status := s) else rows[i]
    ensures IdsDistinct(rows) ==> IdsDistinct(r)
  {
    seq(|rows|, i requires 0 <= i < |rows| =>
      if rows[i].id == id then rows[i].(status := s) else rows[i])
  }

  /** An update confined to the rows with id `id`, which keeps every id and
      every `isActive` of the other rows, leaves every other doctor's lookup
      as it was. */
  lemma OthersStillFound(before: seq<Doctor>, after: seq<Doctor>, id: int)
    requires |after| == |before|
    requires forall i :: 0 <= i < |before| ==> after[i].id == before[i].id
    requires forall i :: 0 <= i < |before| && before[i].id != id ==> after[i] == before[i]
    ensures forall j :: j != id ==> Find(after, ActiveWithId(j)) == Find(before, ActiveWithId(j))
  {
    forall j | j != id
      ensures Find(after, ActiveWithId(j)) == Find(before, ActiveWithId(j))
    {
      FindIndexAgree(before, after, ActiveWithId(j));
    }
  }

  function OtherThan(id: int): Doctor -> bool {
    (d: Doctor) => d.id != id
  }

  /** After a removal `findAll` lists what it listed before, in the same
      order, less the removed doctor. */
  lemma {:induction false} RemoveShrinksFindAll(rows: seq<Doctor>, id: int)
    ensures Filter(Deactivated(rows, id), IsActiveDoctor) == Filter(Filter(rows, IsActiveDoctor), OtherThan(id))
  {
    if rows != [] {
      assert Deactivated(rows, id)[1..] == Deactivated(rows[1..], id);
      RemoveShrinksFindAll(rows[1..], id);
      var head := if IsActiveDoctor(rows[0]) then [rows[0]] else [];
      FilterConcat(head, Filter(rows[1..], IsActiveDoctor), OtherThan(id));
      assert Filter(head, OtherThan(id)) == (if OtherThan(id)(rows[0]) && rows[0].isActive then [rows[0]] else []) + Filter([], OtherThan(id));
    }
  }

  /** The `doctors` table. */
  class DoctorTable {
    var rows: seq<Doctor>

    ghost predicate Valid()
      reads this
    {
      IdsDistinct(rows)
    }

    constructor(initial: seq<Doctor>)
      requires IdsDistinct(initial)
      ensures Valid() && rows == initial
    {
      rows := initial;
    }

    /** `findAll`: every active row, in table order, and nothing else. */
    function FindAll(): (r: seq<Doctor>)
      reads this
      ensures forall d :: d in r <==> d in rows && d.isActive
    {
      Filter(rows, IsActiveDoctor)
    }

    /** `findById`: the row with that id, but only while it is active. */
    function FindById(id: int): (r: Option<Doctor>)
      reads this
      ensures r.None? <==> forall i :: 0 <= i < |rows| ==> !(rows[i].id == id && rows[i].isActive)
      ensures r.Some? ==> r.value in rows && r.value.id == id && r.value.isActive
    {
      Find(rows, ActiveWithId(id))
    }

    /** `remove`: the row stays in the table with `isActive` cleared, so the
        doctor is no longer found; no other row changes. */
    method Remove(id: int)
      requires Valid()
      modifies this
      ensures Valid()
      ensures rows == Deactivated(old(rows), id)
      ensures FindById(id).None?
      ensures forall j :: j != id ==> FindById(j) == old(FindById(j))
    {
      OthersStillFound(rows, Deactivated(rows, id), id);
      rows := Deactivated(rows, id);
    }

    /** `searchDoctors`: builds the dictionary, then selects the rows that
        meet it. The result is the rows the filters describe, in table order;
        with no filter given it is what `findAll` returns. */
    method SearchDoctors(f: SearchFilters) returns (r: seq<Doctor>)
      ensures forall d :: d in r <==> d in rows && MatchesFilters(d, f)
      ensures NoFilters(f) ==> r == FindAll()
    {
      var where := BuildWhere(f);
      r := Filter(rows, MatchesWhere(where));
      forall d | d in rows
        ensures MatchesWhere(where)(d) <==> MatchesFilters(d, f)
      {
        WhereMeansFilters(f, where, d);
      }
      if NoFilters(f) {
        forall i | 0 <= i < |rows|
          ensures MatchesWhere(where)(rows[i]) == IsActiveDoctor(rows[i])
        {
          WhereMeansFilters(f, where, rows[i]);
        }
        FilterEquivalent(rows, MatchesWhere(where), IsActiveDoctor);
      }
    }

    /** `updateStatus`: only `status` changes, `isActive` included among what
        stays; the answer is `findById` afterwards, so an inactive doctor
        gives none. */
    method UpdateStatus(id: int, status: DoctorStatus) returns (r: Option<Doctor>)
      requires Valid()
      modifies this
      ensures Valid()
      ensures rows == WithDoctorStatus(old(rows), id, status)
      ensures r == FindById(id)
      ensures r.Some? ==> r.value.status == status
      ensures r.None? <==> old(FindById(id)).None?
      ensures forall j :: j != id ==> FindById(j) == old(FindById(j))
    {
      OthersStillFound(rows, WithDoctorStatus(rows, id, status), id);
      rows := WithDoctorStatus(rows, id, status);
      r := FindById(id);
    }
  }
}
