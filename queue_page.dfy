/** The queue page. It holds the entries `GET /queue` returned, in that
    order. A status change is a request followed by a reload: when the
    request succeeds, the page shows `QueueService.CurrentQueue` of the
    server's rows after the status overwrite (`QueueService.SetStatus`),
    which replaces any local reset or priority change. */
module QueuePage {
  import opened Common
  import opened QueueEntryEntity
  import QueueService

  /** The page's state: the list, the loading flag, the add dialog with its
      selections, and the error banner. */
  datatype PageState = PageState(
    queue: seq<QueueEntry>,
    loading: bool,
    showAddModal: bool,
    selectedPatient: Option<int>,
    selectedPriority: Priority,
    error: string)

  /** The test `entry.status === s`. */
  function StatusIs(s: QueueStatus): QueueEntry -> bool {
    (e: QueueEntry) => e.status == s
  }

  /** The test `entry.priority === p`. */
  function PriorityIs(p: Priority): QueueEntry -> bool {
    (e: QueueEntry) => e.priority == p
  }

  /** Still in the line: waiting or with the doctor. */
  predicate IsActive(e: QueueEntry) {
    e.status == Waiting || e.status == WithDoctor
  }

  /** `queue.find(entry => entry.status === s)`: `nextPatient` with
      `Waiting`, `currentPatient` with `WithDoctor`. */
  function FirstWithStatus(q: seq<QueueEntry>, s: QueueStatus): (r: Option<QueueEntry>)
    ensures r.None? <==> forall i :: 0 <= i < |q| ==> q[i].status != s
    ensures r.Some? ==> exists k :: 0 <= k < |q| && q[k] == r.value && q[k].status == s
                                    && forall j :: 0 <= j < k ==> q[j].status != s
  {
    var r := Find(q, StatusIs(s));
    if r.Some? then
      var k := FindIndex(q, StatusIs(s));
      assert q[k] == r.value && q[k].status == s && forall j :: 0 <= j < k ==> q[j].status != s;
      r
    else r
  }

  const UpdateStatusError := "Failed to update queue status"

  /** The page shows exactly what the last load returned for the server's
      `rows` and today's window `w`: no local reset or priority change has
      happened since. */
  predicate Synced(st: PageState, rows: seq<QueueEntry>, w: QueueService.Window) {
    st.queue == QueueService.CurrentQueue(rows, w)
  }

  /** `updateStatus`, given the server's rows before the request and whether
      the request succeeded. On success the page reloads: it shows
      `getCurrentQueue` of the rows after `update(id, { status })`, whatever
      was shown before, and loading is over; when the page was in step with
      the server, that is the shown list with every entry of the id in the
      new status and nothing else changed. On failure the list stays, no
      reload happens and the error banner is set. */
  function UpdateStatus(st: PageState, id: int, s: QueueStatus, rows: seq<QueueEntry>, w: QueueService.Window,
                        serviceOk: bool): (r: PageState)
    ensures serviceOk ==> r == st.(queue := QueueService.CurrentQueue(QueueService.SetStatus(rows, id, s), w),
                                   loading := false)
    ensures !serviceOk ==> r == st.(error := UpdateStatusError)
    ensures Synced(st, rows, w) ==> |r.queue| == |st.queue| && forall i :: 0 <= i < |st.queue| ==>
      r.queue[i] == (if serviceOk && st.queue[i].id == id then st.queue[i].(status := s) else st.queue[i])
  {
    if serviceOk then
      QueueService.CurrentQueueAfterSetStatus(rows, w, id, s);
      st.(queue := QueueService.CurrentQueue(QueueService.SetStatus(rows, id, s), w), loading := false)
    else st.(error := UpdateStatusError)
  }

  /** `callNextPatient`: the first waiting entry in the shown list is sent to
      the doctor; with nobody waiting no request is made and nothing
      changes. A success reloads the server's list; a failure only sets the
      error. */
  function CallNextPatient(st: PageState, rows: seq<QueueEntry>, w: QueueService.Window, serviceOk: bool): (r: PageState)
    ensures (forall i :: 0 <= i < |st.queue| ==> st.queue[i].status != Waiting) ==> r == st
    ensures var k := FindIndex(st.queue, StatusIs(Waiting));
      k < |st.queue| ==>
        && (forall j :: 0 <= j < k ==> st.queue[j].status != Waiting)
        && (serviceOk ==> r == st.(queue := QueueService.CurrentQueue(QueueService.SetStatus(rows, st.queue[k].id, WithDoctor), w),
                                   loading := false))
        && (!serviceOk ==> r == st.(error := UpdateStatusError))
  {
    var k := FindIndex(st.queue, StatusIs(Waiting));
    if k < |st.queue| then UpdateStatus(st, st.queue[k].id, WithDoctor, rows, w, serviceOk) else st
  }

  /** When the page was in step with the server, a successful call of the
      next patient shows the same list with that entry sent to the doctor;
      when ids are distinct (they are primary keys), no other entry
      changes. */
  lemma CallNextInStep(st: PageState, rows: seq<QueueEntry>, w: QueueService.Window)
    requires Synced(st, rows, w)
    requires exists i :: 0 <= i < |st.queue| && st.queue[i].status == Waiting
    ensures var k := FindIndex(st.queue, StatusIs(Waiting));
            && CallNextPatient(st, rows, w, true).queue == QueueService.SetStatus(st.queue, st.queue[k].id, WithDoctor)
            && CallNextPatient(st, rows, w, true).queue[k] == st.queue[k].(status := WithDoctor)
    ensures var k := FindIndex(st.queue, StatusIs(Waiting));
            QueueService.IdsDistinct(st.queue) ==>
              forall i :: 0 <= i < |st.queue| && i != k ==> CallNextPatient(st, rows, w, true).queue[i] == st.queue[i]
  {
    var q := st.queue;
    var k := FindIndex(q, StatusIs(Waiting));
    var id := q[k].id;
    var r := CallNextPatient(st, rows, w, true).queue;
    assert r == QueueService.CurrentQueue(QueueService.SetStatus(rows, id, WithDoctor), w);
    QueueService.CurrentQueueAfterSetStatus(rows, w, id, WithDoctor);
    var m := QueueService.SetStatus(q, id, WithDoctor);
    assert r == m;
    if QueueService.IdsDistinct(q) {
      forall i | 0 <= i < |q| && i != k
        ensures m[i] == q[i]
      {
        assert q[i].id != id;
      }
    }
  }

  /** `holdPatient`: the entry goes back to waiting, then the page reloads
      whether or not the request succeeded, because `updateStatus` catches
      its own failure; so the hold handler's own error text is never shown.
      Either way the page shows the server's list: after the write when it
      succeeded, as it was when it failed. */
  function HoldPatient(st: PageState, id: int, rows: seq<QueueEntry>, w: QueueService.Window, serviceOk: bool): (r: PageState)
    ensures r.error == if serviceOk then st.error else UpdateStatusError
    ensures r == st.(queue := QueueService.CurrentQueue(if serviceOk then QueueService.SetStatus(rows, id, Waiting) else rows, w),
                     error := r.error, loading := false)
    ensures Synced(st, rows, w) ==> |r.queue| == |st.queue| && forall i :: 0 <= i < |st.queue| ==>
      r.queue[i] == (if serviceOk && st.queue[i].id == id then st.queue[i].(status := Waiting) else st.queue[i])
  {
    var after := if serviceOk then QueueService.SetStatus(rows, id, Waiting) else rows;
    QueueService.CurrentQueueAfterSetStatus(rows, w, id, Waiting);
    UpdateStatus(st, id, Waiting, rows, w, serviceOk).(queue := QueueService.CurrentQueue(after, w), loading := false)
  }

  /** `markCompleted`: the entry is completed, with the reload of
      `updateStatus`. */
  function MarkCompleted(st: PageState, id: int, rows: seq<QueueEntry>, w: QueueService.Window, serviceOk: bool): (r: PageState)
    ensures serviceOk ==> r == st.(queue := QueueService.CurrentQueue(QueueService.SetStatus(rows, id, Completed), w),
                                   loading := false)
    ensures !serviceOk ==> r == st.(error := UpdateStatusError)
    ensures Synced(st, rows, w) ==> |r.queue| == |st.queue| && forall i :: 0 <= i < |st.queue| ==>
      r.queue[i] == (if serviceOk && st.queue[i].id == id then st.queue[i].(status := Completed) else st.queue[i])
  {
    UpdateStatus(st, id, Completed, rows, w, serviceOk)
  }

  /** A failed status request of any of the three buttons shows the same
      error. Calling next and marking completed keep the shown list; holding
      shows the server's unchanged list, which is the shown one when the
      page was in step. */
  lemma StatusFailuresKeepQueue(st: PageState, id: int, rows: seq<QueueEntry>, w: QueueService.Window)
    ensures CallNextPatient(st, rows, w, false).queue == st.queue
    ensures MarkCompleted(st, id, rows, w, false) == st.(error := UpdateStatusError)
    ensures HoldPatient(st, id, rows, w, false).queue == QueueService.CurrentQueue(rows, w)
    ensures HoldPatient(st, id, rows, w, false).error == UpdateStatusError
  {
    assert CallNextPatient(st, rows, w, false).queue == st.queue;
  }

  /** The reload after a successful status change brings back what a local
      `resetQueue` hid and undoes a local `updatePriority`: the page shows
      the list as last loaded, with only the status overwrite applied. */
  lemma ReloadDiscardsLocalEdits(st: PageState, rows: seq<QueueEntry>, w: QueueService.Window, id: int, s: QueueStatus,
                                 other: int, p: Priority)
    requires Synced(st, rows, w)
    ensures UpdateStatus(st.(queue := ResetQueue(st.queue)), id, s, rows, w, true).queue
            == QueueService.SetStatus(st.queue, id, s)
    ensures UpdateStatus(st.(queue := UpdatePriority(st.queue, other, p)), id, s, rows, w, true).queue
            == QueueService.SetStatus(st.queue, id, s)
  {
    QueueService.CurrentQueueAfterSetStatus(rows, w, id, s);
  }

  /** Sending the entry at `k` to the doctor and putting it back to waiting
      restores a list with distinct ids where it was waiting. */
  lemma HoldRestores(q: seq<QueueEntry>, k: nat)
    requires QueueService.IdsDistinct(q)
    requires k < |q| && q[k].status == Waiting
    ensures QueueService.SetStatus(QueueService.SetStatus(q, q[k].id, WithDoctor), q[k].id, Waiting) == q
  {
    var back := QueueService.SetStatus(QueueService.SetStatus(q, q[k].id, WithDoctor), q[k].id, Waiting);
    forall i | 0 <= i < |q|
      ensures back[i] == q[i]
    {
      if i != k {
        assert q[i].id != q[k].id;
      }
    }
  }

  /** Holding the patient just called puts the list back as it was, when the
      page was in step with the server and ids are distinct. */
  lemma HoldUndoesCallNext(st: PageState, rows: seq<QueueEntry>, w: QueueService.Window)
    requires Synced(st, rows, w)
    requires QueueService.IdsDistinct(st.queue)
    requires exists i :: 0 <= i < |st.queue| && st.queue[i].status == Waiting
    ensures var id := st.queue[FindIndex(st.queue, StatusIs(Waiting))].id;
            HoldPatient(CallNextPatient(st, rows, w, true), id, QueueService.SetStatus(rows, id, WithDoctor), w, true).queue
            == st.queue
  {
    var k := FindIndex(st.queue, StatusIs(Waiting));
    var id := st.queue[k].id;
    var after := QueueService.SetStatus(rows, id, WithDoctor);
    QueueService.CurrentQueueAfterSetStatus(rows, w, id, WithDoctor);
    QueueService.CurrentQueueAfterSetStatus(after, w, id, Waiting);
    HoldRestores(st.queue, k);
  }

  /** `updatePriority`: only the priority of entries with that id changes;
      length, order and every other field stay. */
  function UpdatePriority(q: seq<QueueEntry>, id: int, p: Priority): (r: seq<QueueEntry>)
    ensures |r| == |q|
    ensures forall i :: 0 <= i < |q| ==> r[i] == q[i].(priority := r[i].priority)
    ensures forall i :: 0 <= i < |q| ==> r[i].priority == if q[i].id == id then p else q[i].priority
  {
    seq(|q|, i requires 0 <= i < |q| => if q[i].id == id then q[i].(priority := p) else q[i])
  }

  /** Every entry has exactly one of the four statuses. */
  lemma {:induction false} StatusPartition(q: seq<QueueEntry>)
    ensures Count(q, StatusIs(Waiting)) + Count(q, StatusIs(WithDoctor)) + Count(q, StatusIs(Completed))
            + Count(q, StatusIs(Cancelled)) == |q|
  {
    if q != [] {
      StatusPartition(q[1..]);
    }
  }

  datatype QueueStats = QueueStats(total: nat, waiting: nat, withDoctor: nat, completed: nat, urgent: nat)

  /** `queueStats`: each counter is the number of entries passing its test;
      cancelled entries are in the total and in no other counter, so the
      three status counters never exceed the total. */
  function Stats(q: seq<QueueEntry>): (r: QueueStats)
    ensures r.total == |q|
    ensures r.waiting == Count(q, StatusIs(Waiting)) && r.withDoctor == Count(q, StatusIs(WithDoctor))
    ensures r.completed == Count(q, StatusIs(Completed)) && r.urgent == Count(q, PriorityIs(Urgent))
    ensures r.waiting + r.withDoctor + r.completed + Count(q, StatusIs(Cancelled)) == r.total
    ensures r.waiting + r.withDoctor + r.completed <= r.total
    ensures r.urgent <= r.total
  {
    StatusPartition(q);
    QueueStats(|q|, Count(q, StatusIs(Waiting)), Count(q, StatusIs(WithDoctor)), Count(q, StatusIs(Completed)),
               Count(q, PriorityIs(Urgent)))
  }

  /** Sending the waiting entry at `k` of a list with distinct ids to the
      doctor moves exactly one entry from waiting to with-doctor. */
  lemma SendToDoctorMovesOne(q: seq<QueueEntry>, k: nat)
    requires QueueService.IdsDistinct(q)
    requires k < |q| && q[k].status == Waiting
    ensures var r := QueueService.SetStatus(q, q[k].id, WithDoctor);
            && Stats(r).waiting == Stats(q).waiting - 1
            && Stats(r).withDoctor == Stats(q).withDoctor + 1
            && Stats(r).completed == Stats(q).completed
  {
    var r := QueueService.SetStatus(q, q[k].id, WithDoctor);
    forall i | 0 <= i < |q| && i != k
      ensures r[i] == q[i]
    {
      assert q[i].id != q[k].id;
    }
    CountAfterChangeAt(q, r, k, StatusIs(Waiting));
    CountAfterChangeAt(q, r, k, StatusIs(WithDoctor));
    CountAfterChangeAt(q, r, k, StatusIs(Completed));
  }

  /** A successful call of the next patient moves exactly one entry from
      waiting to with-doctor, when anybody is waiting, the page was in step
      with the server and ids are distinct. */
  lemma CallNextMovesOne(st: PageState, rows: seq<QueueEntry>, w: QueueService.Window)
    requires Synced(st, rows, w)
    requires QueueService.IdsDistinct(st.queue)
    requires exists i :: 0 <= i < |st.queue| && st.queue[i].status == Waiting
    ensures Stats(CallNextPatient(st, rows, w, true).queue).waiting == Stats(st.queue).waiting - 1
    ensures Stats(CallNextPatient(st, rows, w, true).queue).withDoctor == Stats(st.queue).withDoctor + 1
    ensures Stats(CallNextPatient(st, rows, w, true).queue).completed == Stats(st.queue).completed
  {
    CallNextInStep(st, rows, w);
    SendToDoctorMovesOne(st.queue, FindIndex(st.queue, StatusIs(Waiting)));
  }

  /** `resetQueue`: keeps exactly the waiting and with-doctor entries. */
  function ResetQueue(q: seq<QueueEntry>): (r: seq<QueueEntry>)
    ensures forall e :: e in r <==> e in q && (e.status == Waiting || e.status == WithDoctor)
    ensures |r| == Count(q, StatusIs(Waiting)) + Count(q, StatusIs(WithDoctor))
  {
    ResetCount(q);
    Filter(q, IsActive)
  }

  lemma {:induction false} ResetCount(q: seq<QueueEntry>)
    ensures |Filter(q, IsActive)| == Count(q, StatusIs(Waiting)) + Count(q, StatusIs(WithDoctor))
  {
    if q != [] {
      ResetCount(q[1..]);
    }
  }

  /** The kept entries stay in their original relative order: resetting a
      list is resetting its parts. */
  lemma ResetQueueKeepsOrder(a: seq<QueueEntry>, b: seq<QueueEntry>)
    ensures ResetQueue(a + b) == ResetQueue(a) + ResetQueue(b)
  {
    FilterConcat(a, b, IsActive);
  }

  /** After a reset nothing is completed and what is left is all waiting or
      with the doctor; a second reset changes nothing. */
  lemma ResetQueueStats(q: seq<QueueEntry>)
    ensures Stats(ResetQueue(q)).completed == 0
    ensures Stats(ResetQueue(q)).waiting == Stats(q).waiting
    ensures Stats(ResetQueue(q)).withDoctor == Stats(q).withDoctor
    ensures ResetQueue(ResetQueue(q)) == ResetQueue(q)
  {
    var r := ResetQueue(q);
    StatusPartition(r);
    FilterIdempotent(q, IsActive);
    CountOfFilteredStatus(q, Waiting);
    CountOfFilteredStatus(q, WithDoctor);
  }

  lemma {:induction false} CountOfFilteredStatus(q: seq<QueueEntry>, s: QueueStatus)
    requires s == Waiting || s == WithDoctor
    ensures Count(Filter(q, IsActive), StatusIs(s)) == Count(q, StatusIs(s))
  {
    if q != [] {
      CountOfFilteredStatus(q[1..], s);
      CountConcat(if IsActive(q[0]) then [q[0]] else [], Filter(q[1..], IsActive), StatusIs(s));
    }
  }

  /** One rendered row: the displayed number and the estimated wait. */
  datatype QueueRow = QueueRow(id: int, position: nat, estimatedWaitMinutes: nat)

  /** The list as rendered: the entry at index i shows number i + 1 and
      waits 15 minutes for each entry ahead of it. */
  function DisplayRows(q: seq<QueueEntry>): (r: seq<QueueRow>)
    ensures |r| == |q|
    ensures forall i :: 0 <= i < |q| ==> r[i].id == q[i].id && r[i].position == i + 1
    ensures forall i :: 0 <= i < |q| ==> r[i].estimatedWaitMinutes == 15 * (r[i].position - 1)
  {
    seq(|q|, i requires 0 <= i < |q| => QueueRow(q[i].id, i + 1, 15 * i))
  }

  /** The rendering depends on list order and ids alone: queue numbers,
      priorities and statuses do not move anyone. */
  lemma DisplayDependsOnlyOnIds(q1: seq<QueueEntry>, q2: seq<QueueEntry>)
    requires |q1| == |q2|
    requires forall i :: 0 <= i < |q1| ==> q1[i].id == q2[i].id
    ensures DisplayRows(q1) == DisplayRows(q2)
  {
  }

  /** Changing a priority never changes a displayed number or wait. */
  lemma PriorityDoesNotReorder(q: seq<QueueEntry>, id: int, p: Priority)
    ensures DisplayRows(UpdatePriority(q, id, p)) == DisplayRows(q)
  {
    DisplayDependsOnlyOnIds(UpdatePriority(q, id, p), q);
  }
}
