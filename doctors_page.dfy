/** The doctors page. It edits its list locally: status changes, edits and
    additions are applied to the page's array and not sent anywhere. Its
    doctor record has an optional status, which the page reads as active
    when it is missing. */
module DoctorsPage {
  import opened Common
  import opened Strings
  import DS = DoctorsService

  datatype Doctor = Doctor(
    id: int,
    firstName: string,
    lastName: string,
    email: string,
    phone: string,
    specialization: string,
    gender: DS.Gender,
    location: string,
    availability: string,
    isActive: bool,
    status: Option<DS.DoctorStatus>,
    createdAt: string)

  /** The seven fields both the add form and the edit form hold. */
  datatype DoctorForm = DoctorForm(
    firstName: string,
    lastName: string,
    email: string,
    phone: string,
    specialization: string,
    gender: DS.Gender,
    location: string)

  /** The page state. An empty filter text is `""`; the status filter's
      empty choice is `None`. */
  datatype PageState = PageState(
    doctors: seq<Doctor>,
    loading: bool,
    showAddModal: bool,
    showEditModal: bool,
    editing: Option<Doctor>,
    editForm: DoctorForm,
    addForm: DoctorForm,
    searchTerm: string,
    filterSpecialization: string,
    filterLocation: string,
    filterStatus: Option<DS.DoctorStatus>,
    error: string,
    successMessage: string)

  ghost predicate IdsDistinct(ds: seq<Doctor>) {
    forall i, j :: 0 <= i < j < |ds| ==> ds[i].id != ds[j].id
  }

  /** The wire text of a status. */
  function StatusText(s: DS.DoctorStatus): string {
    match s
    case Active => "active"
    case OnLeave => "on_leave"
    case Break => "break"
    case Inactive => "inactive"
  }

  /** One of the four status texts. */
  predicate IsStatusText(v: string) {
    v == "active" || v == "on_leave" || v == "break" || v == "inactive"
  }

  /** The status texts are exactly the texts of the four statuses. */
  lemma StatusTexts(v: string)
    ensures IsStatusText(v) <==> exists st: DS.DoctorStatus :: StatusText(st) == v
  {
    if IsStatusText(v) {
      if v == "active" { assert StatusText(DS.Active) == v; }
      else if v == "on_leave" { assert StatusText(DS.OnLeave) == v; }
      else if v == "break" { assert StatusText(DS.Break) == v; }
      else { assert StatusText(DS.Inactive) == v; }
    }
  }

  /** `getStatusLabel`: a missing argument counts as "active"; the four status
      texts have their own labels and every other text is "Unknown". */
  function StatusLabel(s: Option<string>): (text: string)
    ensures s.None? || s == Some("active") ==> text == "Active"
    ensures s == Some("on_leave") ==> text == "On Leave"
    ensures s == Some("break") ==> text == "On Break"
    ensures s == Some("inactive") ==> text == "Inactive"
    ensures text == "Unknown" <==> s.Some? && !IsStatusText(s.value)
  {
    var v := s.GetOr("active");
    if v == "active" then "Active"
    else if v == "on_leave" then "On Leave"
    else if v == "break" then "On Break"
    else if v == "inactive" then "Inactive"
    else "Unknown"
  }

  /** The four statuses have four different labels, none of them "Unknown". */
  lemma StatusLabelsDistinct(a: DS.DoctorStatus, b: DS.DoctorStatus)
    ensures StatusLabel(Some(StatusText(a))) != "Unknown"
    ensures a != b ==> StatusLabel(Some(StatusText(a))) != StatusLabel(Some(StatusText(b)))
  {
  }

  /** `loadDoctors`: the fetched list and a cleared error on success, an
      empty list and an error on failure; loading ends either way. */
  function LoadDoctors(st: PageState, fetched: Option<seq<Doctor>>): (r: PageState)
    ensures !r.loading
    ensures fetched.Some? ==> r.doctors == fetched.value && r.error == ""
    ensures fetched.None? ==> r.doctors == [] && r.error != ""
    ensures r == st.(doctors := r.doctors, error := r.error, loading := false)
  {
    match fetched
    case Some(data) => st.(doctors := data, error := "", loading := false)
    case None => st.(doctors := [], loading := false,
                     error := "Failed to load doctors from server. Please check your connection and try again.")
  }

  /** `updateDoctorStatus`: with no doctor of that id nothing changes.
      Otherwise every doctor with the id takes the status, `isActive`
      becomes whether that status is active, the error is cleared and a
      message names the first such doctor; nothing else changes. */
  function UpdateDoctorStatus(st: PageState, id: int, s: DS.DoctorStatus): (r: PageState)
    ensures (forall i :: 0 <= i < |st.doctors| ==> st.doctors[i].id != id) ==> r == st
    ensures |r.doctors| == |st.doctors|
    ensures forall i :: 0 <= i < |st.doctors| ==>
      r.doctors[i] == (if st.doctors[i].id == id then st.doctors[i].(status := Some(s), isActive := s == DS.Active)
                       else st.doctors[i])
    ensures (exists i :: 0 <= i < |st.doctors| && st.doctors[i].id == id) ==>
      && r.error == ""
      && (exists d :: d in st.doctors && d.id == id &&
            r.successMessage == "Doctor " + d.firstName + " " + d.lastName + " status updated to "
                                + StatusLabel(Some(StatusText(s))))
      && r == st.(doctors := r.doctors, error := "", successMessage := r.successMessage)
  {
    match Find(st.doctors, (d: Doctor) => d.id == id)
    case None => st
    case Some(found) =>
      var updated := seq(|st.doctors|, i requires 0 <= i < |st.doctors| =>
        if st.doctors[i].id == id then st.doctors[i].(status := Some(s), isActive := s == DS.Active)
        else st.doctors[i]);
      st.(doctors := updated, error := "",
          successMessage := "Doctor " + found.firstName + " " + found.lastName + " status updated to "
                            + StatusLabel(Some(StatusText(s))))
  }

  function FormOf(d: Doctor): DoctorForm {
    DoctorForm(d.firstName, d.lastName, d.email, d.phone, d.specialization, d.gender, d.location)
  }

  /** A doctor with the seven form fields written over its own. */
  function ApplyForm(d: Doctor, f: DoctorForm): (r: Doctor)
    ensures FormOf(r) == f
    ensures r.id == d.id && r.status == d.status && r.isActive == d.isActive
    ensures r.availability == d.availability && r.createdAt == d.createdAt
  {
    d.(firstName := f.firstName, lastName := f.lastName, email := f.email, phone := f.phone,
       specialization := f.specialization, gender := f.gender, location := f.location)
  }

  /** `openEditModal`: the edit form shows the doctor's seven fields. */
  function OpenEditModal(st: PageState, d: Doctor): (r: PageState)
    ensures r.editing == Some(d) && r.showEditModal
    ensures ApplyForm(d, r.editForm) == d
    ensures r == st.(editing := Some(d), editForm := r.editForm, showEditModal := true)
  {
    st.(editing := Some(d), editForm := FormOf(d), showEditModal := true)
  }

  /** `handleEditSubmit`: without a doctor being edited nothing happens.
      Otherwise the doctors with the edited id get the form's seven fields
      and keep everything else, status and `isActive` included; the others
      are untouched and the modal closes. */
  function HandleEditSubmit(st: PageState): (r: PageState)
    ensures st.editing.None? ==> r == st
    ensures |r.doctors| == |st.doctors|
    ensures st.editing.Some? ==> forall i :: 0 <= i < |st.doctors| ==>
      r.doctors[i] == (if st.doctors[i].id == st.editing.value.id then ApplyForm(st.doctors[i], st.editForm)
                       else st.doctors[i])
    ensures forall i :: 0 <= i < |st.doctors| ==>
      r.doctors[i].status == st.doctors[i].status && r.doctors[i].isActive == st.doctors[i].isActive
    ensures st.editing.Some? ==>
      && r.successMessage == "Doctor " + st.editForm.firstName + " " + st.editForm.lastName + " updated successfully"
      && r == st.(doctors := r.doctors, successMessage := r.successMessage, showEditModal := false, editing := None)
  {
    match st.editing
    case None => st
    case Some(e) =>
      var updated := seq(|st.doctors|, i requires 0 <= i < |st.doctors| =>
        if st.doctors[i].id == e.id then ApplyForm(st.doctors[i], st.editForm) else st.doctors[i]);
      st.(doctors := updated,
          successMessage := "Doctor " + st.editForm.firstName + " " + st.editForm.lastName + " updated successfully",
          showEditModal := false, editing := None)
  }

  /** Opening the editor on a listed doctor and saving without touching the
      form leaves the list as it was. */
  lemma EditWithoutChangesKeepsList(st: PageState, k: nat)
    requires k < |st.doctors| && IdsDistinct(st.doctors)
    ensures HandleEditSubmit(OpenEditModal(st, st.doctors[k])).doctors == st.doctors
  {
    var withEditor := OpenEditModal(st, st.doctors[k]);
    var r := HandleEditSubmit(withEditor);
    forall i | 0 <= i < |st.doctors|
      ensures r.doctors[i] == st.doctors[i]
    {
      if st.doctors[i].id == st.doctors[k].id {
        assert i == k;
      }
    }
  }

  /** `resetAddForm`: empty texts and gender male. */
  function EmptyForm(): (f: DoctorForm)
    ensures f.firstName == "" && f.lastName == "" && f.email == "" && f.phone == ""
    ensures f.specialization == "" && f.location == "" && f.gender == DS.Male
  {
    DoctorForm("", "", "", "", "", DS.Male, "")
  }

  /** `handleAddSubmit`, with the clock reading `now` as the new id and
      `nowIso` as its creation text: exactly one doctor is appended, built
      from the form, available, active and with status active; the modal
      closes and the form is emptied. */
  function HandleAddSubmit(st: PageState, now: int, nowIso: string): (r: PageState)
    ensures |r.doctors| == |st.doctors| + 1 && r.doctors[..|st.doctors|] == st.doctors
    ensures var d := r.doctors[|st.doctors|];
      && d.id == now && FormOf(d) == st.addForm && d.availability == "Available"
      && d.isActive && d.status == Some(DS.Active) && d.createdAt == nowIso
    ensures r.successMessage == "Doctor " + st.addForm.firstName + " " + st.addForm.lastName + " added successfully"
    ensures r == st.(doctors := r.doctors, successMessage := r.successMessage, showAddModal := false,
                     addForm := EmptyForm())
  {
    var f := st.addForm;
    var d := Doctor(now, f.firstName, f.lastName, f.email, f.phone, f.specialization, f.gender, f.location,
                    "Available", true, Some(DS.Active), nowIso);
    st.(doctors := st.doctors + [d],
        successMessage := "Doctor " + f.firstName + " " + f.lastName + " added successfully",
        showAddModal := false, addForm := EmptyForm())
  }

  /** The four tests of `filteredDoctors`. */
  predicate MatchesSearch(d: Doctor, term: string) {
    Contains(Lower(d.firstName + " " + d.lastName), Lower(term))
  }

  predicate ShownBy(d: Doctor, term: string, spec: string, loc: string, status: Option<DS.DoctorStatus>) {
    && MatchesSearch(d, term)
    && (spec == "" || d.specialization == spec)
    && (loc == "" || Contains(d.location, loc))
    && (status.None? || d.status.GetOr(DS.Active) == status.value)
  }

  function ShownByFilters(term: string, spec: string, loc: string, status: Option<DS.DoctorStatus>): Doctor -> bool {
    (d: Doctor) => ShownBy(d, term, spec, loc, status)
  }

  /** `filteredDoctors`: the doctors passing all four tests, in list order.
      Inactive doctors are not hidden. */
  function FilteredDoctors(ds: seq<Doctor>, term: string, spec: string, loc: string,
                           status: Option<DS.DoctorStatus>): (r: seq<Doctor>)
    ensures |r| <= |ds|
    ensures forall d :: d in r <==>
      && d in ds
      && Contains(Lower(d.firstName + " " + d.lastName), Lower(term))
      && (spec == "" || d.specialization == spec)
      && (loc == "" || Contains(d.location, loc))
      && (status.None? || d.status.GetOr(DS.Active) == status.value)
  {
    Filter(ds, ShownByFilters(term, spec, loc, status))
  }

  /** With every filter empty the whole list is shown, in order. */
  lemma NoFiltersShowsAll(ds: seq<Doctor>)
    ensures FilteredDoctors(ds, "", "", "", None) == ds
  {
    forall i | 0 <= i < |ds|
      ensures ShownByFilters("", "", "", None)(ds[i])
    {
      assert Lower("") == "";
      assert IsPrefix("", Lower(ds[i].firstName + " " + ds[i].lastName));
    }
    FilterAll(ds, ShownByFilters("", "", "", None));
  }

  /** A doctor given a status through the page is shown under that status
      filter whenever it passes the other three tests. */
  lemma UpdatedShownUnderItsStatus(st: PageState, id: int, s: DS.DoctorStatus, k: nat,
                                   term: string, spec: string, loc: string)
    requires k < |st.doctors| && st.doctors[k].id == id
    requires ShownBy(st.doctors[k], term, spec, loc, None)
    ensures UpdateDoctorStatus(st, id, s).doctors[k] in FilteredDoctors(UpdateDoctorStatus(st, id, s).doctors, term, spec, loc, Some(s))
  {
  }

  /** `specializations`: each specialization in the list once. */
  function Specializations(ds: seq<Doctor>): (r: seq<string>)
    ensures NoDuplicates(r)
    ensures forall x :: x in r <==> exists i :: 0 <= i < |ds| && ds[i].specialization == x
  {
    var all := seq(|ds|, i requires 0 <= i < |ds| => ds[i].specialization);
    assert forall i :: 0 <= i < |ds| ==> all[i] == ds[i].specialization;
    Dedup(all)
  }

  /** `locations`: each location's text before its first comma, once. */
  function Locations(ds: seq<Doctor>): (r: seq<string>)
    ensures NoDuplicates(r)
    ensures forall x :: x in r <==> exists i :: 0 <= i < |ds| && FirstSegment(ds[i].location, ',') == x
    ensures forall x :: x in r ==> ',' !in x
  {
    var all := seq(|ds|, i requires 0 <= i < |ds| => FirstSegment(ds[i].location, ','));
    assert forall i :: 0 <= i < |ds| ==> all[i] == FirstSegment(ds[i].location, ',');
    Dedup(all)
  }
}
