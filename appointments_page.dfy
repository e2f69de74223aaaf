/** The appointments page: the status buttons and where they lead, the
    list update after a status change, the date filter, and the booking
    submit with its optional queue request. The page state is a value; each
    handler returns the next one. */
module AppointmentsPage {
  import opened Common
  import QueueEntryEntity

  datatype AppointmentStatus = Scheduled | Confirmed | InProgress | Completed | Cancelled | NoShow

  datatype PatientSummary = PatientSummary(id: int, firstName: string, lastName: string, email: string, phone: string)

  datatype DoctorSummary = DoctorSummary(id: int, firstName: string, lastName: string, specialization: string)

  datatype Appointment = Appointment(
    id: int,
    patientId: int,
    doctorId: int,
    appointmentDate: string,
    appointmentTime: string,
    duration: int,
    status: AppointmentStatus,
    notes: string,
    reasonForVisit: string,
    patient: PatientSummary,
    doctor: DoctorSummary,
    createdAt: string)

  /** The booking form. The two selectors hold an id or nothing; `None`
      stands for the empty text that `parseInt` turns into no number. */
  datatype AppointmentForm = AppointmentForm(
    patientId: Option<int>,
    doctorId: Option<int>,
    appointmentDate: string,
    appointmentTime: string,
    duration: int,
    reasonForVisit: string,
    notes: string,
    addToQueue: bool)

  datatype PageState = PageState(
    appointments: seq<Appointment>,
    loading: bool,
    error: string,
    showAddModal: bool,
    selectedDate: string,
    form: AppointmentForm)

  /** The buttons on an appointment row that change its status. */
  datatype StatusAction = Confirm | Start | Complete | Cancel

  /** The status-changing buttons a row shows, left to right: at most one
      step forward, then Cancel, which every row has. */
  function ActionsOffered(s: AppointmentStatus): (r: seq<StatusAction>)
    ensures Cancel in r && r[|r| - 1] == Cancel && 1 <= |r| <= 2
    ensures Confirm in r <==> s == Scheduled
    ensures Start in r <==> s == Confirmed
    ensures Complete in r <==> s == InProgress
    ensures |r| == 2 <==> s == Scheduled || s == Confirmed || s == InProgress
  {
    match s
    case Scheduled => [Confirm, Cancel]
    case Confirmed => [Start, Cancel]
    case InProgress => [Complete, Cancel]
    case _ => [Cancel]
  }

  /** The status a button asks for. */
  function Target(a: StatusAction): AppointmentStatus {
    match a
    case Confirm => Confirmed
    case Start => InProgress
    case Complete => Completed
    case Cancel => Cancelled
  }

  /** Position along scheduled, confirmed, in progress, completed. */
  function Stage(s: AppointmentStatus): int {
    match s
    case Scheduled => 0
    case Confirmed => 1
    case InProgress => 2
    case Completed => 3
    case _ => -1
  }

  /** Every offered button other than Cancel moves exactly one stage
      forward, and Cancel always leads to cancelled. */
  lemma OfferedActionsProgress(s: AppointmentStatus, a: StatusAction)
    requires a in ActionsOffered(s)
    ensures a == Cancel ==> Target(a) == Cancelled
    ensures a != Cancel ==> 0 <= Stage(s) && Stage(Target(a)) == Stage(s) + 1
  {
  }

  /** Completed, cancelled and no-show rows offer only Cancel; so no button
      sequence reaches a forward stage from them. */
  lemma TerminalOnlyCancel(s: AppointmentStatus)
    requires s == Completed || s == Cancelled || s == NoShow
    ensures ActionsOffered(s) == [Cancel]
  {
  }

  /** Following the forward button three times takes a scheduled
      appointment to completed. */
  lemma ForwardPathToCompleted()
    ensures ActionsOffered(Scheduled)[0] == Confirm && Target(Confirm) == Confirmed
    ensures ActionsOffered(Confirmed)[0] == Start && Target(Start) == InProgress
    ensures ActionsOffered(InProgress)[0] == Complete && Target(Complete) == Completed
  {
  }

  /** `appointments.map(apt => apt.id === id ? {...apt, status} : apt)`:
      only the status of rows with that id changes. */
  function WithStatus(apts: seq<Appointment>, id: int, s: AppointmentStatus): (r: seq<Appointment>)
    ensures |r| == |apts|
    ensures forall i :: 0 <= i < |apts| ==> r[i] == apts[i].(status := r[i].status)
    ensures forall i :: 0 <= i < |apts| ==> r[i].status == if apts[i].id == id then s else apts[i].status
  {
    seq(|apts|, i requires 0 <= i < |apts| => if apts[i].id == id then apts[i].(status := s) else apts[i])
  }

  /** `updateAppointmentStatus`, given whether the service call succeeded:
      on success the list takes the new status; on failure the list stays
      and the error message is set. */
  function UpdateAppointmentStatus(st: PageState, id: int, s: AppointmentStatus, serviceOk: bool): (r: PageState)
    ensures serviceOk ==> r == st.(appointments := WithStatus(st.appointments, id, s))
    ensures !serviceOk ==> r == st.(error := "Failed to update appointment status")
    ensures r.appointments == st.appointments || serviceOk
  {
    if serviceOk then st.(appointments := WithStatus(st.appointments, id, s))
    else st.(error := "Failed to update appointment status")
  }

  /** The test `filteredAppointments` applies to each row. */
  function OnDate(date: string): Appointment -> bool {
    (a: Appointment) => a.appointmentDate == date
  }

  /** `filteredAppointments`: exactly the appointments on the selected day,
      in list order. */
  function FilteredAppointments(apts: seq<Appointment>, date: string): (r: seq<Appointment>)
    ensures forall a :: a in r <==> a in apts && a.appointmentDate == date
    ensures |r| <= |apts|
  {
    Filter(apts, OnDate(date))
  }

  lemma WithStatusConcat(a: seq<Appointment>, b: seq<Appointment>, id: int, s: AppointmentStatus)
    ensures WithStatus(a + b, id, s) == WithStatus(a, id, s) + WithStatus(b, id, s)
  {
    assert forall i :: 0 <= i < |a + b| ==> WithStatus(a + b, id, s)[i] == (WithStatus(a, id, s) + WithStatus(b, id, s))[i];
  }

  /** A status change never moves an appointment in or out of a day: the
      filtered list after the change is the changed filtered list. */
  lemma {:induction false} FilterCommutesWithStatus(apts: seq<Appointment>, date: string, id: int, s: AppointmentStatus)
    ensures FilteredAppointments(WithStatus(apts, id, s), date) == WithStatus(FilteredAppointments(apts, date), id, s)
  {
    if apts != [] {
      var p := OnDate(date);
      var x, rest := apts[0], apts[1..];
      assert apts == [x] + rest;
      WithStatusConcat([x], rest, id, s);
      FilterConcat(WithStatus([x], id, s), WithStatus(rest, id, s), p);
      FilterConcat([x], rest, p);
      FilterCommutesWithStatusOne(x, date, id, s);
      FilterCommutesWithStatus(rest, date, id, s);
      WithStatusConcat(Filter([x], p), Filter(rest, p), id, s);
    }
  }

  /** The same for a one-row list. */
  lemma FilterCommutesWithStatusOne(x: Appointment, date: string, id: int, s: AppointmentStatus)
    ensures Filter(WithStatus([x], id, s), OnDate(date)) == WithStatus(Filter([x], OnDate(date)), id, s)
  {
    var p := OnDate(date);
    var y := WithStatus([x], id, s);
    assert y == [y[0]] && y[0].appointmentDate == x.appointmentDate;
    assert Filter(y, p) == (if p(y[0]) then y else []) + Filter([], p);
    assert Filter([x], p) == (if p(x) then [x] else []) + Filter([], p);
  }

  /** `loadAppointments`, given what the fetch returned: the list is replaced
      only on success, and loading ends either way. */
  function LoadAppointments(st: PageState, fetched: Option<seq<Appointment>>): (r: PageState)
    ensures !r.loading
    ensures fetched.Some? ==> r.appointments == fetched.value && r.error == st.error
    ensures fetched.None? ==> r.appointments == st.appointments && r.error == "Failed to load appointments"
    ensures r.form == st.form && r.selectedDate == st.selectedDate && r.showAddModal == st.showAddModal
  {
    match fetched
    case Some(data) => st.(appointments := data, loading := false)
    case None => st.(error := "Failed to load appointments", loading := false)
  }

  /** `resetForm`: no patient or doctor, empty texts, 30 minutes, and the
      queue box ticked. */
  function EmptyForm(): (f: AppointmentForm)
    ensures f.patientId.None? && f.doctorId.None?
    ensures f.appointmentDate == "" && f.appointmentTime == "" && f.reasonForVisit == "" && f.notes == ""
    ensures f.duration == 30 && f.addToQueue
  {
    AppointmentForm(None, None, "", "", 30, "", "", true)
  }

  /** The body `addToQueue` posts: the form's patient with normal priority. */
  datatype QueueRequest = QueueRequest(patientId: Option<int>, priority: QueueEntryEntity.Priority)

  datatype Submission = Submission(state: PageState, queueRequest: Option<QueueRequest>)

  /** `handleSubmit`, given the appointment the create call returned (or
      `None` when it failed) and whether the queue call succeeded.
      A created appointment is appended whatever happens next; a queue
      request is made only when the box is ticked; the modal closes and the
      form resets only when every call succeeded; any failure sets the
      error and leaves modal and form as they were. */
  function HandleSubmit(st: PageState, created: Option<Appointment>, queueOk: bool): (r: Submission)
    ensures created.None? ==> r.state == st.(error := "Failed to create appointment") && r.queueRequest.None?
    ensures created.Some? ==> r.state.appointments == st.appointments + [created.value]
    ensures r.queueRequest.Some? <==> created.Some? && st.form.addToQueue
    ensures r.queueRequest.Some? ==>
      r.queueRequest.value == QueueRequest(st.form.patientId, QueueEntryEntity.Normal)
    ensures var ok := created.Some? && (queueOk || !st.form.addToQueue);
      && (ok ==> !r.state.showAddModal && r.state.form == EmptyForm() && r.state.error == st.error)
      && (!ok ==> r.state.showAddModal == st.showAddModal && r.state.form == st.form
                  && r.state.error == "Failed to create appointment")
    ensures r.state == st.(appointments := r.state.appointments, error := r.state.error,
                           showAddModal := r.state.showAddModal, form := r.state.form)
  {
    match created
    case None => Submission(st.(error := "Failed to create appointment"), None)
    case Some(a) =>
      var appended := st.(appointments := st.appointments + [a]);
      var request := if st.form.addToQueue then Some(QueueRequest(st.form.patientId, QueueEntryEntity.Normal)) else None;
      if st.form.addToQueue && !queueOk then
        Submission(appended.(error := "Failed to create appointment"), request)
      else
        Submission(appended.(showAddModal := false, form := EmptyForm()), request)
  }

  /** A booked appointment becomes the last row of its own day's list, and
      that list is otherwise what it was. */
  lemma BookedAppearsOnItsDay(st: PageState, a: Appointment, queueOk: bool)
    ensures var r := HandleSubmit(st, Some(a), queueOk).state;
      FilteredAppointments(r.appointments, a.appointmentDate)
        == FilteredAppointments(st.appointments, a.appointmentDate) + [a]
  {
    FilterConcat(st.appointments, [a], OnDate(a.appointmentDate));
  }
}
