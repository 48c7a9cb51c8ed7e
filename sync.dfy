/**
 * The reconciliation and enrichment write-back of `storeReminders` and
 * `processReminder`, as functions on the table (a finite map from the primary
 * key to the row) and lemmas about them. The class in `store.dfy` runs the same
 * steps imperatively and is proved equal to these functions.
 */
module Sync {
  import opened Wrappers
  import opened Locate

  /** One item of the external snapshot (`ReminderFromCLI`). */
  datatype Entry = Entry(id: string, title: string)

  /** A stored row without its key. Timestamps are integers on one clock, in milliseconds. */
  datatype Row = Row(
    name: string,
    aisle: Option<string>,
    image: Option<string>,
    error: bool,
    createdAt: int,
    updatedAt: int)

  /** A row with its key, as a `select` returns it. */
  datatype Reminder = Reminder(id: string, row: Row)

  /** The `reminders` table; the map's domain is the primary key, so no two rows share an id. */
  type Table = map<string, Row>

  /** The product lookup `fetch` performs for a title; `None` is a rejected request. */
  type Fetch = string -> Option<Response>

  /**
   * The staleness window, `6 * 60 * 60 * 1000` milliseconds. The source compares
   * the ISO text of `now - window` (with its `T` and `Z`) with the SQLite
   * `CURRENT_TIMESTAMP` text of the row as strings, which module Timestamps
   * shows to misfire; here both are numbers on one clock and the comparison is
   * numeric, the intended six-hour window.
   */
  const StaleAfter: int := 6 * 60 * 60 * 1000

  function Ids(s: seq<Entry>): set<string> {
    set e | e in s :: e.id
  }

  /** The external ids are a key of the snapshot. */
  predicate DistinctIds(s: seq<Entry>) {
    forall i, j :: 0 <= i < j < |s| ==> s[i].id != s[j].id
  }

  /** Entries that share an id share a title. */
  predicate ConsistentTitles(s: seq<Entry>) {
    forall i, j :: 0 <= i < |s| && 0 <= j < |s| && s[i].id == s[j].id ==> s[i].title == s[j].title
  }

  /** The row an unseen id is inserted as: column defaults apart from id and name. */
  function Inserted(title: string, now: int): (row: Row)
    ensures row.name == title && !row.error && row.aisle.None? && row.image.None?
    ensures row.createdAt == now && row.updatedAt == now
  {
    Row(title, None, None, false, now, now)
  }

  /** The test a stored row must pass to be queued again: old, failed, or renamed. */
  predicate NeedsRefresh(row: Row, title: string, now: int) {
    row.updatedAt < now - StaleAfter || row.error || row.name != title
  }

  /** The update a queued existing row gets; its enrichment data and creation time stay. */
  function Refreshed(row: Row, title: string, now: int): (r: Row)
    ensures r.name == title && !r.error && r.updatedAt == now
    ensures r.aisle == row.aisle && r.image == row.image && r.createdAt == row.createdAt
  {
    row.(name := title, updatedAt := now, error := false)
  }

  /** The table and the work queue while the snapshot is walked. */
  datatype Pass = Pass(rows: Table, queue: seq<Entry>)

  /** One iteration of the snapshot loop. */
  function Visit(p: Pass, e: Entry, now: int): Pass {
    if e.id !in p.rows then
      Pass(p.rows[e.id := Inserted(e.title, now)], p.queue + [e])
    else if NeedsRefresh(p.rows[e.id], e.title, now) then
      Pass(p.rows[e.id := Refreshed(p.rows[e.id], e.title, now)], p.queue + [e])
    else
      p
  }

  /** The snapshot loop, over the first |s| entries, starting from an empty queue. */
  function Sweep(rows: Table, s: seq<Entry>, now: int): Pass
    decreases |s|
  {
    if s == [] then Pass(rows, []) else Visit(Sweep(rows, s[..|s| - 1], now), s[|s| - 1], now)
  }

  /** The rows the first transaction keeps: those whose ids are in the snapshot. */
  function Prune(rows: Table, s: seq<Entry>): (r: Table)
    ensures r.Keys == rows.Keys * Ids(s)
    ensures forall id :: id in r ==> r[id] == rows[id]
  {
    map id | id in rows && id in Ids(s) :: rows[id]
  }

  /** The whole first transaction: delete, then walk the snapshot. Afterwards the stored ids are the snapshot's. */
  function Reconciled(rows: Table, s: seq<Entry>, now: int): (p: Pass)
    ensures p.rows.Keys == Ids(s)
  {
    SweepKeys(Prune(rows, s), s, now);
    Sweep(Prune(rows, s), s, now)
  }

  // ---------------------------------------------------------------------------
  // The reconciliation judged entry by entry against the table as it was.

  predicate Queued(rows: Table, e: Entry, now: int) {
    e.id !in rows || NeedsRefresh(rows[e.id], e.title, now)
  }

  function Expected(rows: Table, e: Entry, now: int): Row {
    if e.id !in rows then Inserted(e.title, now)
    else if NeedsRefresh(rows[e.id], e.title, now) then Refreshed(rows[e.id], e.title, now)
    else rows[e.id]
  }

  /** The entries of the snapshot that need a lookup, in snapshot order. */
  function Selected(rows: Table, s: seq<Entry>, now: int): seq<Entry>
    decreases |s|
  {
    if s == [] then []
    else Selected(rows, s[..|s| - 1], now) + (if Queued(rows, s[|s| - 1], now) then [s[|s| - 1]] else [])
  }

  /** `q` is `s` with some entries left out and the rest in their order. */
  predicate IsSubsequence(q: seq<Entry>, s: seq<Entry>)
    decreases |s|
  {
    q == [] ||
    (s != [] &&
     ((q[|q| - 1] == s[|s| - 1] && IsSubsequence(q[..|q| - 1], s[..|s| - 1])) ||
      IsSubsequence(q, s[..|s| - 1])))
  }

  lemma {:induction false} SubsequenceElements(q: seq<Entry>, s: seq<Entry>)
    requires IsSubsequence(q, s)
    ensures forall e :: e in q ==> e in s
    decreases |s|
  {
    if q != [] {
      var s' := s[..|s| - 1];
      if q[|q| - 1] == s[|s| - 1] && IsSubsequence(q[..|q| - 1], s') {
        SubsequenceElements(q[..|q| - 1], s');
        assert q == q[..|q| - 1] + [q[|q| - 1]];
        assert s == s' + [s[|s| - 1]];
      } else {
        SubsequenceElements(q, s');
        assert s == s' + [s[|s| - 1]];
      }
    }
  }

  lemma DistinctPrefix(s: seq<Entry>)
    requires s != [] && DistinctIds(s)
    ensures DistinctIds(s[..|s| - 1]) && s[|s| - 1].id !in Ids(s[..|s| - 1])
  {
    var s' := s[..|s| - 1];
    forall i | 0 <= i < |s'| ensures s'[i] == s[i] && s'[i].id != s[|s| - 1].id { }
  }

  lemma IdsOfPrefix(s: seq<Entry>)
    requires s != []
    ensures Ids(s) == Ids(s[..|s| - 1]) + {s[|s| - 1].id}
  {
    assert s == s[..|s| - 1] + [s[|s| - 1]];
  }

  /** The loop adds exactly the snapshot's ids to the table. */
  lemma {:induction false} SweepKeys(rows: Table, s: seq<Entry>, now: int)
    ensures Sweep(rows, s, now).rows.Keys == rows.Keys + Ids(s)
    decreases |s|
  {
    if s != [] {
      SweepKeys(rows, s[..|s| - 1], now);
      IdsOfPrefix(s);
    }
  }

  /** The work queue lists snapshot entries in snapshot order. */
  lemma {:induction false} SweepQueueIsSubsequence(rows: Table, s: seq<Entry>, now: int)
    ensures IsSubsequence(Sweep(rows, s, now).queue, s)
    decreases |s|
  {
    if s != [] {
      var s' := s[..|s| - 1];
      SweepQueueIsSubsequence(rows, s', now);
      var q := Sweep(rows, s', now).queue;
      var q' := Sweep(rows, s, now).queue;
      if q' != q {
        assert q' == q + [s[|s| - 1]];
        assert q'[..|q'| - 1] == q;
      }
    }
  }

  lemma {:induction false} SweepByEntry(rows: Table, s: seq<Entry>, now: int)
    requires DistinctIds(s)
    ensures var p := Sweep(rows, s, now);
      && (forall id :: id in rows && id !in Ids(s) ==> id in p.rows && p.rows[id] == rows[id])
      && (forall i :: 0 <= i < |s| ==> s[i].id in p.rows && p.rows[s[i].id] == Expected(rows, s[i], now))
      && p.queue == Selected(rows, s, now)
    decreases |s|
  {
    if s != [] {
      var s', e := s[..|s| - 1], s[|s| - 1];
      DistinctPrefix(s);
      SweepByEntry(rows, s', now);
      SweepKeys(rows, s', now);
      IdsOfPrefix(s);
      var p', p := Sweep(rows, s', now), Sweep(rows, s, now);
      assert p == Visit(p', e, now);
      assert e.id in rows ==> p'.rows[e.id] == rows[e.id];
      assert e.id !in rows ==> e.id !in p'.rows;
      assert p.rows == p'.rows[e.id := Expected(rows, e, now)] || (p.rows == p'.rows && p'.rows[e.id] == Expected(rows, e, now));
      forall id | id in rows && id !in Ids(s) ensures id in p.rows && p.rows[id] == rows[id] {
        assert id != e.id;
      }
      forall i | 0 <= i < |s| ensures s[i].id in p.rows && p.rows[s[i].id] == Expected(rows, s[i], now) {
        if i < |s| - 1 {
          assert s[i] == s'[i] && s[i].id != e.id;
        }
      }
    }
  }

  /** `Queued` and `Expected` only look at the rows of the snapshot's ids. */
  lemma {:induction false} SelectedAgree(r1: Table, r2: Table, s: seq<Entry>, now: int)
    requires forall e :: e in s ==> (e.id in r1 <==> e.id in r2) && (e.id in r1 ==> r1[e.id] == r2[e.id])
    ensures Selected(r1, s, now) == Selected(r2, s, now)
    decreases |s|
  {
    if s != [] {
      SelectedAgree(r1, r2, s[..|s| - 1], now);
      assert s[|s| - 1] in s;
    }
  }

  /**
   * Reconciliation, entry by entry: every snapshot id is stored with the row
   * `Expected` gives (an unseen id inserted; an existing row refreshed exactly
   * when `NeedsRefresh` holds, otherwise left as it was), nothing else is
   * stored, and the queue is the snapshot entries `Queued` selects, in order.
   */
  lemma ReconcileByEntry(rows: Table, s: seq<Entry>, now: int)
    requires DistinctIds(s)
    ensures var p := Reconciled(rows, s, now);
      && p.rows.Keys == Ids(s)
      && (forall i :: 0 <= i < |s| ==> p.rows[s[i].id] == Expected(rows, s[i], now))
      && p.queue == Selected(rows, s, now)
  {
    var pruned := Prune(rows, s);
    SweepByEntry(pruned, s, now);
    SelectedAgree(pruned, rows, s, now);
    forall i | 0 <= i < |s| ensures Expected(pruned, s[i], now) == Expected(rows, s[i], now) {
      assert s[i] in s;
    }
  }

  /** The queue holds exactly the snapshot entries `Queued` selects. */
  lemma {:induction false} SelectedMembers(rows: Table, s: seq<Entry>, now: int)
    ensures forall e :: e in Selected(rows, s, now) <==> e in s && Queued(rows, e, now)
    decreases |s|
  {
    if s != [] {
      var s', e := s[..|s| - 1], s[|s| - 1];
      SelectedMembers(rows, s', now);
      assert s == s' + [e];
    }
  }

  /** Selecting from distinct ids keeps them distinct. */
  lemma {:induction false} SelectedDistinct(rows: Table, s: seq<Entry>, now: int)
    requires DistinctIds(s)
    ensures DistinctIds(Selected(rows, s, now))
    decreases |s|
  {
    if s != [] {
      var s', e := s[..|s| - 1], s[|s| - 1];
      DistinctPrefix(s);
      SelectedDistinct(rows, s', now);
      SelectedMembers(rows, s', now);
      var q', q := Selected(rows, s', now), Selected(rows, s, now);
      if Queued(rows, e, now) {
        assert q == q' + [e];
        forall i, j | 0 <= i < j < |q| ensures q[i].id != q[j].id {
          if j == |q| - 1 {
            assert q[i] == q'[i] && q'[i] in s';
          } else {
            assert q[i] == q'[i] && q[j] == q'[j];
          }
        }
      }
    }
  }

  /** An unseen id is inserted with the title, no error and the current time, and is queued. */
  lemma NewIdInsertedAndQueued(rows: Table, s: seq<Entry>, now: int, i: nat)
    requires DistinctIds(s) && i < |s| && s[i].id !in rows
    ensures s[i].id in Reconciled(rows, s, now).rows
    ensures Reconciled(rows, s, now).rows[s[i].id] == Row(s[i].title, None, None, false, now, now)
    ensures s[i] in Reconciled(rows, s, now).queue
  {
    ReconcileByEntry(rows, s, now);
    SelectedMembers(rows, s, now);
  }

  /**
   * A stored row is queued exactly when it is old, failed or renamed; if queued
   * it is refreshed with its enrichment kept, otherwise it is left unchanged.
   */
  lemma ExistingRowQueuedIff(rows: Table, s: seq<Entry>, now: int, i: nat)
    requires DistinctIds(s) && i < |s| && s[i].id in rows
    ensures var p := Reconciled(rows, s, now);
      && s[i].id in p.rows
      && (s[i] in p.queue <==>
            rows[s[i].id].updatedAt < now - StaleAfter || rows[s[i].id].error || rows[s[i].id].name != s[i].title)
      && (s[i] in p.queue ==> p.rows[s[i].id] == rows[s[i].id].(name := s[i].title, error := false, updatedAt := now))
      && (s[i] !in p.queue ==> p.rows[s[i].id] == rows[s[i].id])
  {
    ReconcileByEntry(rows, s, now);
    SelectedMembers(rows, s, now);
  }

  /** The window boundary: a row exactly six hours old is fresh, one millisecond older is stale. */
  lemma StalenessBoundary(row: Row, now: int)
    requires !row.error
    ensures row.updatedAt == now - StaleAfter ==> !NeedsRefresh(row, row.name, now)
    ensures row.updatedAt == now - StaleAfter - 1 ==> NeedsRefresh(row, row.name, now)
  {
  }

  // ---------------------------------------------------------------------------
  // The queue drain.

  /** What `getAisleInfo` yields for a title. */
  function Lookup(fetch: Fetch, title: string): Result<Location, LookupError> {
    AisleInfo(fetch(title))
  }

  /** The update `processReminder` makes: enrichment on success, only the error flag on failure. */
  function Enrich(row: Row, outcome: Result<Location, LookupError>): (r: Row)
    ensures r.name == row.name && r.createdAt == row.createdAt && r.updatedAt == row.updatedAt
    ensures outcome.Success? ==> r.aisle == outcome.value.aisle && r.image == outcome.value.image && !r.error
    ensures outcome.Failure? ==> r.aisle == row.aisle && r.image == row.image && r.error
  {
    match outcome
    case Success(loc) => row.(aisle := loc.aisle, image := loc.image, error := false)
    case Failure(_) => row.(error := true)
  }

  /** An `update ... where id = ...`: a missing id updates nothing. */
  function WriteBack(rows: Table, e: Entry, fetch: Fetch): Table {
    if e.id in rows then rows[e.id := Enrich(rows[e.id], Lookup(fetch, e.title))] else rows
  }

  /** The queue drained in order, every entry written back whatever the earlier ones did. */
  function Drain(rows: Table, q: seq<Entry>, fetch: Fetch): (d: Table)
    ensures d.Keys == rows.Keys
    decreases |q|
  {
    if q == [] then rows else WriteBack(Drain(rows, q[..|q| - 1], fetch), q[|q| - 1], fetch)
  }

  /** The value of `rejected` after the drain loop. */
  predicate AnyFailed(q: seq<Entry>, fetch: Fetch) {
    exists k :: 0 <= k < |q| && Lookup(fetch, q[k].title).Failure?
  }

  /** The drain keeps the ids, never touches names or timestamps, and leaves unqueued ids alone. */
  lemma {:induction false} DrainFrame(rows: Table, q: seq<Entry>, fetch: Fetch)
    ensures var d := Drain(rows, q, fetch);
      && d.Keys == rows.Keys
      && (forall id :: id in rows ==>
            d[id].name == rows[id].name && d[id].createdAt == rows[id].createdAt && d[id].updatedAt == rows[id].updatedAt)
      && (forall id :: id in rows && id !in Ids(q) ==> d[id] == rows[id])
    decreases |q|
  {
    if q != [] {
      DrainFrame(rows, q[..|q| - 1], fetch);
      IdsOfPrefix(q);
    }
  }

  /** With distinct ids each queued row gets its own lookup's outcome, independent of the others'. */
  lemma {:induction false} DrainByEntry(rows: Table, q: seq<Entry>, fetch: Fetch)
    requires DistinctIds(q)
    ensures forall i :: 0 <= i < |q| && q[i].id in rows ==>
      Drain(rows, q, fetch)[q[i].id] == Enrich(rows[q[i].id], Lookup(fetch, q[i].title))
    decreases |q|
  {
    if q != [] {
      var q', e := q[..|q| - 1], q[|q| - 1];
      DistinctPrefix(q);
      DrainByEntry(rows, q', fetch);
      DrainFrame(rows, q', fetch);
      forall i | 0 <= i < |q| - 1 ensures q[i].id != e.id && q[i] == q'[i] {
        assert q'[i] == q[i];
      }
    }
  }

  /** A drain whose lookups all succeed leaves no row flagged that was not flagged already. */
  lemma {:induction false} DrainAllSucceeded(rows: Table, q: seq<Entry>, fetch: Fetch)
    requires forall e :: e in q ==> Lookup(fetch, e.title).Success?
    ensures forall id :: id in rows && !rows[id].error ==> !Drain(rows, q, fetch)[id].error
    decreases |q|
  {
    if q != [] {
      assert forall e :: e in q[..|q| - 1] ==> e in q;
      DrainAllSucceeded(rows, q[..|q| - 1], fetch);
      DrainFrame(rows, q[..|q| - 1], fetch);
    }
  }

  // ---------------------------------------------------------------------------
  // The whole of `storeReminders`.

  function Synced(rows: Table, s: seq<Entry>, now: int, fetch: Fetch): (r: Table)
    ensures r.Keys == Ids(s)
  {
    var p := Reconciled(rows, s, now);
    Drain(p.rows, p.queue, fetch)
  }

  /**
   * One sync, entry by entry: a queued entry's row is the refreshed or inserted
   * row enriched with its own lookup's outcome; any other row is what it was.
   */
  lemma SyncByEntry(rows: Table, s: seq<Entry>, now: int, fetch: Fetch)
    requires DistinctIds(s)
    ensures Synced(rows, s, now, fetch).Keys == Ids(s)
    ensures forall i :: 0 <= i < |s| ==>
      (Synced(rows, s, now, fetch)[s[i].id] ==
         if Queued(rows, s[i], now) then Enrich(Expected(rows, s[i], now), Lookup(fetch, s[i].title))
         else rows[s[i].id])
  {
    var p := Reconciled(rows, s, now);
    ReconcileByEntry(rows, s, now);
    SelectedMembers(rows, s, now);
    SelectedDistinct(rows, s, now);
    DrainFrame(p.rows, p.queue, fetch);
    DrainByEntry(p.rows, p.queue, fetch);
    forall i | 0 <= i < |s|
      ensures Synced(rows, s, now, fetch)[s[i].id] ==
        if Queued(rows, s[i], now) then Enrich(Expected(rows, s[i], now), Lookup(fetch, s[i].title))
        else rows[s[i].id]
    {
      var e := s[i];
      if Queued(rows, e, now) {
        assert e in p.queue;
        var k :| 0 <= k < |p.queue| && p.queue[k] == e;
      } else {
        assert e.id !in Ids(p.queue);
      }
    }
  }

  /** A row that would not be queued: same name, no error, inside the window. */
  predicate Fresh(row: Row, title: string, now: int) {
    row.name == title && !row.error && row.updatedAt >= now - StaleAfter
  }

  /** After the snapshot loop every snapshot entry's row is fresh. */
  lemma {:induction false} SweepLeavesFresh(rows: Table, s: seq<Entry>, now: int)
    requires ConsistentTitles(s)
    ensures forall e :: e in s ==> e.id in Sweep(rows, s, now).rows && Fresh(Sweep(rows, s, now).rows[e.id], e.title, now)
    decreases |s|
  {
    if s != [] {
      var s', e := s[..|s| - 1], s[|s| - 1];
      assert ConsistentTitles(s') by {
        forall i, j | 0 <= i < |s'| && 0 <= j < |s'| && s'[i].id == s'[j].id ensures s'[i].title == s'[j].title {
          assert s'[i] == s[i] && s'[j] == s[j];
        }
      }
      SweepLeavesFresh(rows, s', now);
      var p := Sweep(rows, s, now);
      forall f | f in s ensures f.id in p.rows && Fresh(p.rows[f.id], f.title, now) {
        var j :| 0 <= j < |s| && s[j] == f;
        if f.id == e.id {
          assert f.title == e.title;
        } else {
          assert f in s';
        }
      }
    }
  }

  /** A sweep over entries whose rows are all fresh changes nothing and queues nothing. */
  lemma {:induction false} QuietSweep(rows: Table, s: seq<Entry>, now: int)
    requires forall e :: e in s ==> e.id in rows && !NeedsRefresh(rows[e.id], e.title, now)
    ensures Sweep(rows, s, now) == Pass(rows, [])
    decreases |s|
  {
    if s != [] {
      assert forall e :: e in s[..|s| - 1] ==> e in s;
      QuietSweep(rows, s[..|s| - 1], now);
    }
  }

  /**
   * Idempotence: when every lookup of a sync succeeded, a second sync of the same
   * snapshot at a time when no snapshot row's window has yet elapsed queues
   * nothing and leaves the table as it is.
   */
  lemma ResyncIsQuiet(rows: Table, s: seq<Entry>, now: int, later: int, fetch: Fetch)
    requires ConsistentTitles(s)
    requires forall e :: e in Reconciled(rows, s, now).queue ==> Lookup(fetch, e.title).Success?
    requires forall e :: e in s ==>
      e.id in Synced(rows, s, now, fetch) && Synced(rows, s, now, fetch)[e.id].updatedAt >= later - StaleAfter
    ensures Reconciled(Synced(rows, s, now, fetch), s, later) == Pass(Synced(rows, s, now, fetch), [])
  {
    var p := Reconciled(rows, s, now);
    var synced := Synced(rows, s, now, fetch);
    SweepLeavesFresh(Prune(rows, s), s, now);
    DrainFrame(p.rows, p.queue, fetch);
    DrainAllSucceeded(p.rows, p.queue, fetch);
    assert Prune(synced, s) == synced;
    QuietSweep(synced, s, later);
  }

  /** In particular a second sync no later than the first is quiet. */
  lemma ResyncAtSameClockIsQuiet(rows: Table, s: seq<Entry>, now: int, later: int, fetch: Fetch)
    requires ConsistentTitles(s)
    requires forall e :: e in Reconciled(rows, s, now).queue ==> Lookup(fetch, e.title).Success?
    requires later <= now
    ensures Reconciled(Synced(rows, s, now, fetch), s, later) == Pass(Synced(rows, s, now, fetch), [])
  {
    var p := Reconciled(rows, s, now);
    SweepLeavesFresh(Prune(rows, s), s, now);
    DrainFrame(p.rows, p.queue, fetch);
    ResyncIsQuiet(rows, s, now, later, fetch);
  }

  /**
   * A row queued and looked up successfully stays out of the queue of any next
   * sync until six hours after the first one.
   */
  lemma QueuedRowSettles(rows: Table, s: seq<Entry>, now: int, later: int, fetch: Fetch, i: nat)
    requires DistinctIds(s) && i < |s|
    requires Queued(rows, s[i], now) && Lookup(fetch, s[i].title).Success?
    requires later <= now + StaleAfter
    ensures s[i] !in Reconciled(Synced(rows, s, now, fetch), s, later).queue
  {
    var synced := Synced(rows, s, now, fetch);
    SyncByEntry(rows, s, now, fetch);
    ReconcileByEntry(synced, s, later);
    SelectedMembers(synced, s, later);
  }

  /** A failed lookup leaves its row flagged, so the next sync queues it again at any time. */
  lemma FailedLookupIsRetried(rows: Table, s: seq<Entry>, now: int, later: int, fetch: Fetch, i: nat)
    requires DistinctIds(s) && i < |s|
    requires Queued(rows, s[i], now) && Lookup(fetch, s[i].title).Failure?
    ensures Synced(rows, s, now, fetch)[s[i].id].error
    ensures s[i] in Reconciled(Synced(rows, s, now, fetch), s, later).queue
  {
    var synced := Synced(rows, s, now, fetch);
    SyncByEntry(rows, s, now, fetch);
    ReconcileByEntry(synced, s, later);
    SelectedMembers(synced, s, later);
  }
}
