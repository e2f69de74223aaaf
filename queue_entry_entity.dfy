/** The `queue_entries` record: its two enumerations, its column defaults,
    its required and nullable columns, and the uniqueness the entity declares
    for `queueNumber`. Timestamps are integers (milliseconds). */
module QueueEntryEntity {
  import opened Common

  datatype QueueStatus = Waiting | WithDoctor | Completed | Cancelled

  datatype Priority = Low | Normal | High | Urgent

  datatype QueueEntry = QueueEntry(
    id: int,
    queueNumber: int,
    status: QueueStatus,
    priority: Priority,
    notes: Option<string>,
    calledAt: Option<int>,
    completedAt: Option<int>,
    patientId: int,
    userId: int,
    doctorId: Option<int>,
    createdAt: int)

  /** A `Partial<QueueEntry>` as a request body supplies it. The
      database-generated `id` and `createdAt` are not part of it. */
  datatype QueueDraft = QueueDraft(
    queueNumber: Option<int>,
    status: Option<QueueStatus>,
    priority: Option<Priority>,
    notes: Option<string>,
    calledAt: Option<int>,
    completedAt: Option<int>,
    patientId: Option<int>,
    userId: Option<int>,
    doctorId: Option<int>)

  /** Why a save is refused: a NOT NULL column without a value, or a
      `queueNumber` that the uniqueness rule in force already sees. */
  datatype SaveError = MissingPatientId | MissingUserId | DuplicateQueueNumber

  /** The row `create({...draft, queueNumber: number})` produces, with the
      generated `id` and creation instant, when both required references are
      present. Absent status and priority take the column defaults. */
  function CreateEntry(draft: QueueDraft, id: int, number: int, now: int): (r: Result<QueueEntry, SaveError>)
    ensures r.Ok? <==> draft.patientId.Some? && draft.userId.Some?
    ensures draft.patientId.None? ==> r == Err(MissingPatientId)
    ensures draft.patientId.Some? && draft.userId.None? ==> r == Err(MissingUserId)
    ensures r.Ok? ==> var e := r.value;
      && e.id == id && e.queueNumber == number && e.createdAt == now
      && e.status == (if draft.status.Some? then draft.status.value else Waiting)
      && e.priority == (if draft.priority.Some? then draft.priority.value else Normal)
      && e.patientId == draft.patientId.value && e.userId == draft.userId.value
      && e.doctorId == draft.doctorId && e.notes == draft.notes
      && e.calledAt == draft.calledAt && e.completedAt == draft.completedAt
  {
    if draft.patientId.None? then Err(MissingPatientId)
    else if draft.userId.None? then Err(MissingUserId)
    else Ok(QueueEntry(
      id, number,
      draft.status.GetOr(Waiting),
      draft.priority.GetOr(Normal),
      draft.notes, draft.calledAt, draft.completedAt,
      draft.patientId.value, draft.userId.value, draft.doctorId,
      now))
  }

  /** Uniqueness as the entity declares it: across the whole table. */
  ghost predicate NumbersUnique(rows: seq<QueueEntry>) {
    forall i, j :: 0 <= i < j < |rows| ==> rows[i].queueNumber != rows[j].queueNumber
  }

  /** The save the entity's `unique: true` column gives: the row is refused
      when any stored row, of any day, already has its `queueNumber`. */
  function SaveDeclared(rows: seq<QueueEntry>, e: QueueEntry): (r: Result<seq<QueueEntry>, SaveError>)
    ensures r.Ok? <==> forall i :: 0 <= i < |rows| ==> rows[i].queueNumber != e.queueNumber
    ensures r.Ok? ==> r.value == rows + [e]
    ensures r.Err? ==> r.error == DuplicateQueueNumber
    ensures NumbersUnique(rows) && r.Ok? ==> NumbersUnique(r.value)
  {
    if exists i :: 0 <= i < |rows| && rows[i].queueNumber == e.queueNumber
    then Err(DuplicateQueueNumber)
    else Ok(rows + [e])
  }
}
