/** The dashboard: the six counters and the recent-activity list derived
    from one all-or-nothing fetch of today's appointments, the doctors and
    the patients. */
module Dashboard {
  import opened Common
  import AP = AppointmentsPage
  import DS = DoctorsService
  import DP = DoctorsPage
  import PC = PatientContext

  datatype DashboardStats = DashboardStats(
    totalPatientsToday: nat,
    appointmentsToday: nat,
    patientsInQueue: nat,
    activeDoctors: nat,
    completedAppointments: nat,
    pendingAppointments: nat)

  datatype ActivityKind = AppointmentActivity | QueueActivity | Completion | Reschedule

  /** One recent-activity item; `minutesAgo` is the number in its time
      label "N minutes ago". */
  datatype Activity = Activity(
    id: int,
    kind: ActivityKind,
    message: string,
    minutesAgo: int,
    patientName: string,
    doctorName: string)

  /** What the three parallel fetches returned together. */
  datatype Fetched = Fetched(todayAppointments: seq<AP.Appointment>, doctors: seq<DP.Doctor>, patients: seq<PC.Patient>)

  datatype DashboardState = DashboardState(
    stats: DashboardStats,
    recentActivity: seq<Activity>,
    loading: bool,
    error: string)

  function HasActiveStatus(d: DP.Doctor): bool {
    d.status == Some(DS.Active)
  }

  function IsCompleted(a: AP.Appointment): bool {
    a.status == AP.Completed
  }

  function IsScheduled(a: AP.Appointment): bool {
    a.status == AP.Scheduled
  }

  /** The counters: patients and today's appointments by length, doctors
      whose status is active, completed and scheduled appointments, and no
      queue count at all. Completed and pending together never exceed the
      day's appointments. */
  function ComputeStats(f: Fetched): (s: DashboardStats)
    ensures s.totalPatientsToday == |f.patients| && s.appointmentsToday == |f.todayAppointments|
    ensures s.patientsInQueue == 0
    ensures s.activeDoctors == Count(f.doctors, HasActiveStatus) && s.activeDoctors <= |f.doctors|
    ensures s.completedAppointments == Count(f.todayAppointments, IsCompleted)
    ensures s.pendingAppointments == Count(f.todayAppointments, IsScheduled)
    ensures s.activeDoctors == 0 <==> forall i :: 0 <= i < |f.doctors| ==> f.doctors[i].status != Some(DS.Active)
    ensures s.completedAppointments + s.pendingAppointments <= s.appointmentsToday
  {
    CountDisjoint(f.todayAppointments, IsCompleted, IsScheduled);
    DashboardStats(|f.patients|, |f.todayAppointments|, 0, Count(f.doctors, HasActiveStatus),
                   Count(f.todayAppointments, IsCompleted), Count(f.todayAppointments, IsScheduled))
  }

  function FullName(first: string, last: string): string {
    first + " " + last
  }

  /** The item for the appointment at index `i` of the list. */
  function ActivityFor(a: AP.Appointment, i: int): (r: Activity)
    ensures r.id == a.id && r.minutesAgo == 3 * i + 2
    ensures r.kind == Completion <==> a.status == AP.Completed
    ensures r.kind == Completion || r.kind == AppointmentActivity
  {
    var patient := FullName(a.patient.firstName, a.patient.lastName);
    var doctor := FullName(a.doctor.firstName, a.doctor.lastName);
    var done := a.status == AP.Completed;
    Activity(a.id, if done then Completion else AppointmentActivity,
             (if done then "Completed" else "Scheduled") + " appointment: " + patient + " with " + doctor,
             3 * i + 2, patient, doctor)
  }

  /** The recent-activity list: the first five of today's appointments, in
      order. */
  function RecentActivity(apts: seq<AP.Appointment>): (r: seq<Activity>)
    ensures |r| == if |apts| < 5 then |apts| else 5
    ensures forall i :: 0 <= i < |r| ==> r[i] == ActivityFor(apts[i], i)
  {
    var first := if |apts| < 5 then apts else apts[..5];
    seq(|first|, i requires 0 <= i < |first| => ActivityFor(first[i], i))
  }

  /** `loadDashboardData`: on success the counters and the activity list come
      from the fetched data; on failure both stay as they were and the error
      is set. Loading ends either way. */
  function LoadDashboardData(st: DashboardState, fetched: Option<Fetched>): (r: DashboardState)
    ensures !r.loading
    ensures fetched.Some? ==> && r.stats == ComputeStats(fetched.value)
                              && r.recentActivity == RecentActivity(fetched.value.todayAppointments)
                              && r.error == ""
    ensures fetched.None? ==> && r.stats == st.stats && r.recentActivity == st.recentActivity
                              && r.error == "Failed to load dashboard data. Please refresh the page."
  {
    match fetched
    case Some(f) => DashboardState(ComputeStats(f), RecentActivity(f.todayAppointments), false, "")
    case None => st.(loading := false, error := "Failed to load dashboard data. Please refresh the page.")
  }

  /** Every item's kind and time label are determined by its appointment and
      its place: a completed appointment is reported as a completion, the
      first item is two minutes old and each later one three minutes
      older. */
  lemma ActivityTimesIncrease(apts: seq<AP.Appointment>, i: nat, j: nat)
    requires i < j < |RecentActivity(apts)|
    ensures RecentActivity(apts)[j].minutesAgo - RecentActivity(apts)[i].minutesAgo == 3 * (j - i)
    ensures RecentActivity(apts)[i].id == apts[i].id
  {
  }

  /** The dashboard counts a doctor as active only with an explicit active
      status, while the doctors page's status filter treats a missing status
      as active: the count never exceeds what that filter shows. */
  lemma ActiveCountAtMostActiveFilter(ds: seq<DP.Doctor>)
    ensures Count(ds, HasActiveStatus) <= |DP.FilteredDoctors(ds, "", "", "", Some(DS.Active))|
  {
    var q := DP.ShownByFilters("", "", "", Some(DS.Active));
    forall i | 0 <= i < |ds| && HasActiveStatus(ds[i])
      ensures q(ds[i])
    {
      DP.NoFiltersShowsAll([ds[i]]);
      assert DP.FilteredDoctors([ds[i]], "", "", "", None) == [ds[i]];
      assert [ds[i]][0] == ds[i];
    }
    CountAtMostFilter(ds, HasActiveStatus, q);
  }
}
