/** The walk-in queue service: a table of queue entries, today's numbering,
    today's list, and the status overwrite. The "today" window is an input:
    it runs from today's midnight to tomorrow's midnight, both ends included. */
module QueueService {
  import opened Common
  import opened QueueEntryEntity

  datatype Window = Window(start: int, end: int)

  /** `Between(today, tomorrow)` on `createdAt`. */
  predicate InWindow(t: int, w: Window) {
    w.start <= t <= w.end
  }

  /** Row `i` exists and was created inside `w`. */
  predicate InDay(rows: seq<QueueEntry>, w: Window, i: int) {
    0 <= i < |rows| && InWindow(rows[i].createdAt, w)
  }

  /** The recursion behind `MaxNumberIn`, kept apart from its contract so
      that proofs about the order of the rows do not carry that contract. */
  function MaxNumberScan(rows: seq<QueueEntry>, w: Window): Option<int> {
    if rows == [] then None
    else
      var rest := MaxNumberScan(rows[1..], w);
      if !InWindow(rows[0].createdAt, w) then rest
      else if rest.Some? && rest.value >= rows[0].queueNumber then rest
      else Some(rows[0].queueNumber)
  }

  lemma {:induction false} MaxNumberScanBounds(rows: seq<QueueEntry>, w: Window)
    ensures MaxNumberScan(rows, w).None? <==> forall e :: e in rows ==> !InWindow(e.createdAt, w)
    ensures MaxNumberScan(rows, w).Some? ==>
      exists e :: e in rows && InWindow(e.createdAt, w) && e.queueNumber == MaxNumberScan(rows, w).value
    ensures MaxNumberScan(rows, w).Some? ==>
      forall e :: e in rows && InWindow(e.createdAt, w) ==> e.queueNumber <= MaxNumberScan(rows, w).value
  {
    if rows != [] {
      assert rows == [rows[0]] + rows[1..];
      MaxNumberScanBounds(rows[1..], w);
    }
  }

  /** The number on the first row of `find({ where: today, order: DESC })`:
      the largest `queueNumber` among the rows created inside `w`. */
  function MaxNumberIn(rows: seq<QueueEntry>, w: Window): (m: Option<int>)
    ensures m.None? <==> forall e :: e in rows ==> !InWindow(e.createdAt, w)
    ensures m.Some? ==> exists e :: e in rows && InWindow(e.createdAt, w) && e.queueNumber == m.value
    ensures m.Some? ==> forall e :: e in rows && InWindow(e.createdAt, w) ==> e.queueNumber <= m.value
  {
    MaxNumberScanBounds(rows, w);
    MaxNumberScan(rows, w)
  }

  /** `getNextQueueNumber`: one past today's largest number, or 1 when
      nothing has been queued today. */
  function NextQueueNumber(rows: seq<QueueEntry>, w: Window): (n: int)
    ensures (forall e :: e in rows ==> !InWindow(e.createdAt, w)) ==> n == 1
    ensures (exists e :: e in rows && InWindow(e.createdAt, w)) ==>
      && (exists e :: e in rows && InWindow(e.createdAt, w) && e.queueNumber == n - 1)
      && (forall e :: e in rows && InWindow(e.createdAt, w) ==> e.queueNumber < n)
  {
    match MaxNumberIn(rows, w)
    case Some(m) => m + 1
    case None => 1
  }

  /** Rows created before today's window, however many and whatever their
      numbers, never change the number issued today. */
  lemma {:induction false} EarlierDaysIgnored(earlier: seq<QueueEntry>, rows: seq<QueueEntry>, w: Window)
    requires forall i :: 0 <= i < |earlier| ==> earlier[i].createdAt < w.start
    ensures NextQueueNumber(earlier + rows, w) == NextQueueNumber(rows, w)
  {
    MaxIgnoresEarlier(earlier, rows, w);
  }

  lemma {:induction false} MaxIgnoresEarlier(earlier: seq<QueueEntry>, rows: seq<QueueEntry>, w: Window)
    requires forall i :: 0 <= i < |earlier| ==> earlier[i].createdAt < w.start
    ensures MaxNumberScan(earlier + rows, w) == MaxNumberScan(rows, w)
  {
    if earlier != [] {
      var all := earlier + rows;
      assert all[0] == earlier[0] && !InWindow(all[0].createdAt, w);
      assert MaxNumberScan(all, w) == MaxNumberScan(all[1..], w);
      assert all[1..] == earlier[1..] + rows;
      MaxIgnoresEarlier(earlier[1..], rows, w);
    } else {
      assert earlier + rows == rows;
    }
  }

  /** Numbering is dense within a day: once the issued number is stored
      inside the window, the next one issued is exactly one more. */
  lemma NextAfterAdd(rows: seq<QueueEntry>, w: Window, e: QueueEntry)
    requires InWindow(e.createdAt, w)
    requires e.queueNumber == NextQueueNumber(rows, w)
    ensures NextQueueNumber(rows + [e], w) == e.queueNumber + 1
  {
    var all := rows + [e];
    assert e in all;
    var m := MaxNumberIn(all, w);
    var x :| x in all && InWindow(x.createdAt, w) && x.queueNumber == m.value;
    assert x in rows ==> x.queueNumber < e.queueNumber;
    assert m.value == e.queueNumber;
  }

  /** Per-day uniqueness: no two rows created inside `w` share a number. */
  ghost predicate NumbersUniqueIn(rows: seq<QueueEntry>, w: Window) {
    forall i, j :: InDay(rows, w, i) && InDay(rows, w, j) && i != j ==> rows[i].queueNumber != rows[j].queueNumber
  }

  /** A save under per-day uniqueness: the row is refused only when a row
      created inside `w` already carries its number. */
  function SaveInWindow(rows: seq<QueueEntry>, e: QueueEntry, w: Window): (r: Result<seq<QueueEntry>, SaveError>)
    ensures r.Ok? <==> forall x :: x in rows && InWindow(x.createdAt, w) ==> x.queueNumber != e.queueNumber
    ensures r.Ok? ==> r.value == rows + [e]
    ensures r.Err? ==> r.error == DuplicateQueueNumber
    ensures NumbersUniqueIn(rows, w) && r.Ok? ==> NumbersUniqueIn(r.value, w)
  {
    if exists x :: x in rows && InWindow(x.createdAt, w) && x.queueNumber == e.queueNumber
    then Err(DuplicateQueueNumber)
    else
      var all := rows + [e];
      assert forall i :: 0 <= i < |rows| ==> all[i] == rows[i] && all[i] in rows;
      Ok(all)
  }

  /** The number `getNextQueueNumber` computes never clashes under per-day
      uniqueness. */
  lemma NextNumberAccepted(rows: seq<QueueEntry>, w: Window, e: QueueEntry)
    requires e.queueNumber == NextQueueNumber(rows, w)
    ensures SaveInWindow(rows, e, w).Ok?
  {
  }

  /** `addToQueue` as the code is written against the entity's declared
      table-wide unique `queueNumber`: the save succeeds exactly when both
      references are present and no stored row, of any day, has the
      computed number; it then appends the created row. A missing
      reference is refused as `CreateEntry` refuses it, a clash as a
      duplicate. */
  function AddToQueueDeclared(rows: seq<QueueEntry>, draft: QueueDraft, w: Window, now: int, id: int): (r: Result<seq<QueueEntry>, SaveError>)
    ensures r.Ok? <==> && draft.patientId.Some? && draft.userId.Some?
                       && forall i :: 0 <= i < |rows| ==> rows[i].queueNumber != NextQueueNumber(rows, w)
    ensures r.Ok? ==> r.value == rows + [CreateEntry(draft, id, NextQueueNumber(rows, w), now).value]
    ensures r.Ok? ==> |r.value| == |rows| + 1 && r.value[..|rows|] == rows
                      && r.value[|rows|].queueNumber == NextQueueNumber(rows, w)
    ensures r.Err? && (draft.patientId.None? || draft.userId.None?) ==>
              r.error == CreateEntry(draft, id, NextQueueNumber(rows, w), now).error
    ensures r.Err? && draft.patientId.Some? && draft.userId.Some? ==> r.error == DuplicateQueueNumber
  {
    match CreateEntry(draft, id, NextQueueNumber(rows, w), now)
    case Err(err) => Err(err)
    case Ok(e) =>
      var r := SaveDeclared(rows, e);
      assert r.Ok? ==> r.value[..|rows|] == rows;
      r
  }

  /** Once any earlier day has issued number 1, every day that has nothing
      queued yet computes number 1 and the declared uniqueness refuses it.
      The table is unchanged by the refusal, so every retry that day is
      refused the same way. */
  lemma DeclaredUniqueBlocksLaterDays(rows: seq<QueueEntry>, draft: QueueDraft, w: Window, now: int, id: int)
    requires forall x :: x in rows ==> !InWindow(x.createdAt, w)
    requires exists x :: x in rows && x.queueNumber == 1
    requires draft.patientId.Some? && draft.userId.Some?
    ensures AddToQueueDeclared(rows, draft, w, now, id) == Err(DuplicateQueueNumber)
  {
    var e := CreateEntry(draft, id, NextQueueNumber(rows, w), now).value;
    assert e.queueNumber == 1;
    var x :| x in rows && x.queueNumber == 1;
    assert x.queueNumber == e.queueNumber;
  }

  /** The same on concrete values: walk-in #1 created yesterday, then the
      first walk-in of today. */
  lemma SecondDayFirstWalkInRefused()
    ensures var yesterday := QueueEntry(1, 1, Completed, Normal, None, None, None, 7, 3, None, 36_000_000);
            var today := Window(86_400_000, 172_800_000);
            var draft := QueueDraft(None, None, Some(Normal), None, None, None, Some(8), Some(3), None);
            AddToQueueDeclared([yesterday], draft, today, 90_000_000, 2) == Err(DuplicateQueueNumber)
  {
    var yesterday := QueueEntry(1, 1, Completed, Normal, None, None, None, 7, 3, None, 36_000_000);
    var today := Window(86_400_000, 172_800_000);
    var draft := QueueDraft(None, None, Some(Normal), None, None, None, Some(8), Some(3), None);
    assert yesterday in [yesterday];
    DeclaredUniqueBlocksLaterDays([yesterday], draft, today, 90_000_000, 2);
  }

  predicate SortedByNumber(s: seq<QueueEntry>) {
    forall i, j :: 0 <= i < j < |s| ==> s[i].queueNumber <= s[j].queueNumber
  }

  /** Putting an entry with a number no larger than the head in front of a
      sorted list keeps it sorted. */
  lemma SortedCons(x: QueueEntry, t: seq<QueueEntry>)
    requires SortedByNumber(t)
    requires |t| > 0 ==> x.queueNumber <= t[0].queueNumber
    ensures SortedByNumber([x] + t)
  {
    var r := [x] + t;
    forall i, j | 0 <= i < j < |r|
      ensures r[i].queueNumber <= r[j].queueNumber
    {
      if i > 0 {
        assert r[i] == t[i - 1] && r[j] == t[j - 1];
      } else {
        assert r[j] == t[j - 1];
      }
    }
  }

  /** One step of the ordered read: `e` goes in front of the first entry
      with a larger number. The result starts with `e` or with the old
      first entry. */
  function InsertByNumber(e: QueueEntry, s: seq<QueueEntry>): (r: seq<QueueEntry>)
    requires SortedByNumber(s)
    ensures SortedByNumber(r)
    ensures |r| == |s| + 1
    ensures r[0] == e || (|s| > 0 && r[0] == s[0])
    ensures multiset(r) == multiset(s) + multiset{e}
  {
    if s == [] then [e]
    else if e.queueNumber <= s[0].queueNumber then
      SortedCons(e, s);
      [e] + s
    else
      assert s == [s[0]] + s[1..];
      var t := InsertByNumber(e, s[1..]);
      SortedCons(s[0], t);
      [s[0]] + t
  }

  /** `order: { queueNumber: 'ASC' }`. */
  function SortByNumber(s: seq<QueueEntry>): (r: seq<QueueEntry>)
    ensures SortedByNumber(r)
    ensures multiset(r) == multiset(s)
  {
    if s == [] then []
    else
      assert s == [s[0]] + s[1..];
      InsertByNumber(s[0], SortByNumber(s[1..]))
  }

  function CreatedIn(w: Window): QueueEntry -> bool {
    (e: QueueEntry) => InWindow(e.createdAt, w)
  }

  /** `getCurrentQueue`: every row created inside `w`, each as often as it is
      stored, nothing else, in ascending `queueNumber` order. Priority plays
      no part in the order. */
  function CurrentQueue(rows: seq<QueueEntry>, w: Window): (r: seq<QueueEntry>)
    ensures SortedByNumber(r)
    ensures forall e :: multiset(r)[e] == if InWindow(e.createdAt, w) then multiset(rows)[e] else 0
    ensures forall i :: 0 <= i < |r| ==> InWindow(r[i].createdAt, w)
  {
    var f := Filter(rows, CreatedIn(w));
    FilterMultiset(rows, CreatedIn(w));
    var r := SortByNumber(f);
    assert multiset(r) == multiset(f);
    assert forall i :: 0 <= i < |r| ==> multiset(f)[r[i]] > 0;
    r
  }

  /** The effect of `update(id, { status })`: every row with that id gets the
      new status and keeps every other column; other rows are untouched. */
  function SetStatus(rows: seq<QueueEntry>, id: int, status: QueueStatus): (r: seq<QueueEntry>)
    ensures |r| == |rows|
    ensures forall i :: 0 <= i < |r| ==> r[i] == rows[i].(status := r[i].status)
    ensures forall i :: 0 <= i < |r| ==> r[i].status == if rows[i].id == id then status else rows[i].status
  {
    seq(|rows|, i requires 0 <= i < |rows| => if rows[i].id == id then rows[i].(status := status) else rows[i])
  }

  /** The overwrite of one row. */
  function Mark(e: QueueEntry, id: int, status: QueueStatus): QueueEntry {
    if e.id == id then e.(status := status) else e
  }

  /** `SetStatus` works row by row: on a non-empty list it is the first
      row's overwrite in front of the rest's. */
  lemma SetStatusCons(rows: seq<QueueEntry>, id: int, status: QueueStatus)
    requires rows != []
    ensures SetStatus(rows, id, status) == [Mark(rows[0], id, status)] + SetStatus(rows[1..], id, status)
  {
  }

  /** The overwrite keeps every number, hence the order. */
  lemma SortedSetStatus(s: seq<QueueEntry>, id: int, status: QueueStatus)
    requires SortedByNumber(s)
    ensures SortedByNumber(SetStatus(s, id, status))
  {
    var m := SetStatus(s, id, status);
    assert forall i :: 0 <= i < |s| ==> m[i].queueNumber == s[i].queueNumber;
  }

  /** The status overwrite changes neither creation instants nor numbers, so
      it commutes with the day filter of `getCurrentQueue`. */
  lemma {:induction false} FilterSetStatus(rows: seq<QueueEntry>, w: Window, id: int, status: QueueStatus)
    ensures Filter(SetStatus(rows, id, status), CreatedIn(w)) == SetStatus(Filter(rows, CreatedIn(w)), id, status)
  {
    if rows != [] {
      SetStatusCons(rows, id, status);
      var t := SetStatus(rows, id, status);
      assert t[1..] == SetStatus(rows[1..], id, status);
      FilterSetStatus(rows[1..], w, id, status);
      var f := Filter(rows[1..], CreatedIn(w));
      if CreatedIn(w)(rows[0]) {
        assert Filter(rows, CreatedIn(w)) == [rows[0]] + f;
        SetStatusCons([rows[0]] + f, id, status);
        assert ([rows[0]] + f)[1..] == f;
      }
    }
  }

  /** The case of `InsertByNumber` that puts `e` in front. */
  lemma InsertSetStatusFront(e: QueueEntry, s: seq<QueueEntry>, id: int, status: QueueStatus)
    requires SortedByNumber(s) && SortedByNumber(SetStatus(s, id, status))
    requires s != [] && e.queueNumber <= s[0].queueNumber
    ensures InsertByNumber(Mark(e, id, status), SetStatus(s, id, status)) == SetStatus(InsertByNumber(e, s), id, status)
  {
    var r := InsertByNumber(e, s);
    assert r == [e] + s;
    SetStatusCons(r, id, status);
    assert r[1..] == s;
  }

  /** The case of `InsertByNumber` that keeps the head and goes on in the
      tail, given the tail's instance. */
  lemma InsertSetStatusStep(e: QueueEntry, s: seq<QueueEntry>, id: int, status: QueueStatus)
    requires SortedByNumber(s) && SortedByNumber(SetStatus(s, id, status))
    requires s != [] && e.queueNumber > s[0].queueNumber
    requires InsertByNumber(Mark(e, id, status), SetStatus(s[1..], id, status))
             == SetStatus(InsertByNumber(e, s[1..]), id, status)
    ensures InsertByNumber(Mark(e, id, status), SetStatus(s, id, status)) == SetStatus(InsertByNumber(e, s), id, status)
  {
    var t := InsertByNumber(e, s[1..]);
    var r := InsertByNumber(e, s);
    assert r == [s[0]] + t;
    SetStatusCons(r, id, status);
    assert r[1..] == t;
    SetStatusCons(s, id, status);
    var m := SetStatus(s, id, status);
    assert m[1..] == SetStatus(s[1..], id, status);
  }

  /** ... and with one step of the ordered read. */
  lemma {:induction false} InsertSetStatus(e: QueueEntry, s: seq<QueueEntry>, id: int, status: QueueStatus)
    requires SortedByNumber(s)
    ensures SortedByNumber(SetStatus(s, id, status))
    ensures InsertByNumber(Mark(e, id, status), SetStatus(s, id, status)) == SetStatus(InsertByNumber(e, s), id, status)
  {
    SortedSetStatus(s, id, status);
    if s != [] {
      SetStatusCons(s, id, status);
      if e.queueNumber <= s[0].queueNumber {
        InsertSetStatusFront(e, s, id, status);
      } else {
        InsertSetStatus(e, s[1..], id, status);
        InsertSetStatusStep(e, s, id, status);
      }
    }
  }

  /** ... and with the whole ascending sort. */
  lemma {:induction false} SortSetStatus(s: seq<QueueEntry>, id: int, status: QueueStatus)
    ensures SortByNumber(SetStatus(s, id, status)) == SetStatus(SortByNumber(s), id, status)
  {
    if s != [] {
      SetStatusCons(s, id, status);
      var m := SetStatus(s, id, status);
      assert m[1..] == SetStatus(s[1..], id, status);
      SortSetStatus(s[1..], id, status);
      InsertSetStatus(s[0], SortByNumber(s[1..]), id, status);
    }
  }

  /** The list `getCurrentQueue` returns after `update(id, { status })` is
      today's list before the update with the same overwrite applied. */
  lemma CurrentQueueAfterSetStatus(rows: seq<QueueEntry>, w: Window, id: int, status: QueueStatus)
    ensures CurrentQueue(SetStatus(rows, id, status), w) == SetStatus(CurrentQueue(rows, w), id, status)
  {
    FilterSetStatus(rows, w, id, status);
    SortSetStatus(Filter(rows, CreatedIn(w)), id, status);
  }

  ghost predicate IdsDistinct(rows: seq<QueueEntry>) {
    forall i, j :: 0 <= i < j < |rows| ==> rows[i].id != rows[j].id
  }

  /** Appending a row whose id exceeds every stored id keeps ids distinct
      and below the new counter. */
  lemma AppendFreshId(rows: seq<QueueEntry>, e: QueueEntry, lastId: nat)
    requires forall i :: 0 <= i < |rows| ==> rows[i].id <= lastId
    requires IdsDistinct(rows) && e.id == lastId + 1
    ensures forall i :: 0 <= i < |rows + [e]| ==> (rows + [e])[i].id <= lastId + 1
    ensures IdsDistinct(rows + [e])
  {
  }

  /** What storing the row `addToQueue` builds does to the table: per-day
      uniqueness accepts it, ids stay distinct and below the new counter,
      uniqueness is kept, and the next number issued is one more. */
  lemma SaveComputedEntry(rows: seq<QueueEntry>, lastId: nat, e: QueueEntry, w: Window)
    requires forall i :: 0 <= i < |rows| ==> rows[i].id <= lastId
    requires IdsDistinct(rows) && e.id == lastId + 1
    requires InWindow(e.createdAt, w) && e.queueNumber == NextQueueNumber(rows, w)
    ensures SaveInWindow(rows, e, w) == Ok(rows + [e])
    ensures forall i :: 0 <= i < |rows + [e]| ==> (rows + [e])[i].id <= lastId + 1
    ensures IdsDistinct(rows + [e])
    ensures NextQueueNumber(rows + [e], w) == e.queueNumber + 1
    ensures NumbersUniqueIn(rows, w) ==> NumbersUniqueIn(rows + [e], w)
  {
    NextNumberAccepted(rows, w, e);
    NextAfterAdd(rows, w, e);
    AppendFreshId(rows, e, lastId);
  }

  /** The service together with the repository it owns. `lastId` is the
      auto-increment counter behind the generated primary key. */
  class QueueTable {
    var entries: seq<QueueEntry>
    var lastId: nat

    ghost predicate Valid()
      reads this
    {
      && (forall i :: 0 <= i < |entries| ==> entries[i].id <= lastId)
      && IdsDistinct(entries)
    }

    constructor ()
      ensures Valid() && entries == [] && lastId == 0
    {
      entries := [];
      lastId := 0;
    }

    /** `addToQueue`: the entry gets the computed number whatever number the
        request carried. Saved under per-day uniqueness, the only refusal
        left is a missing patient or user reference. */
    method AddToQueue(draft: QueueDraft, today: Window, now: int) returns (r: Result<QueueEntry, SaveError>)
      requires Valid() && InWindow(now, today)
      modifies this
      ensures Valid()
      ensures r.Ok? <==> draft.patientId.Some? && draft.userId.Some?
      ensures r.Ok? ==> && entries == old(entries) + [r.value]
                        && lastId == old(lastId) + 1
                        && CreateEntry(draft, old(lastId) + 1, NextQueueNumber(old(entries), today), now) == Ok(r.value)
                        && NextQueueNumber(entries, today) == r.value.queueNumber + 1
      ensures r.Err? ==> entries == old(entries) && lastId == old(lastId)
      ensures NumbersUniqueIn(old(entries), today) ==> NumbersUniqueIn(entries, today)
    {
      var n := NextQueueNumber(entries, today);
      var created := CreateEntry(draft, lastId + 1, n, now);
      if created.Err? {
        r := Err(created.error);
        return;
      }
      var e := created.value;
      SaveComputedEntry(entries, lastId, e, today);
      var saved := SaveInWindow(entries, e, today);
      entries := saved.value;
      lastId := lastId + 1;
      r := Ok(e);
    }

    /** `updateQueueStatus`: overwrite the status of the row with that id,
        then read that row back; absent when no row has the id. */
    method UpdateQueueStatus(id: int, status: QueueStatus) returns (r: Option<QueueEntry>)
      requires Valid()
      modifies this
      ensures Valid() && lastId == old(lastId)
      ensures entries == SetStatus(old(entries), id, status)
      ensures r.None? <==> forall i :: 0 <= i < |entries| ==> entries[i].id != id
      ensures r.Some? ==> exists i :: 0 <= i < |entries| && old(entries)[i].id == id
                                      && r.value == old(entries)[i].(status := status)
    {
      entries := SetStatus(entries, id, status);
      r := Find(entries, (e: QueueEntry) => e.id == id);
    }
  }
}
