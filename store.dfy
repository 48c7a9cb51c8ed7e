/**
 * The reminders table as an object whose methods change it in place, in the
 * steps `storeReminders` and `processReminder` take. Each method is proved to
 * leave the table as the matching function of `Sync` says.
 */
module Store {
  import opened Wrappers
  import opened Sync

  class ReminderStore {
    /** The rows of the `reminders` table, keyed by id. */
    var rows: Table

    constructor ()
      ensures rows == map[]
    {
      rows := map[];
    }

    /**
     * The first transaction of `storeReminders`: delete the rows whose ids the
     * snapshot lacks, then insert unseen ids and refresh stale rows, queueing both.
     */
    method Reconcile(snapshot: seq<Entry>, now: int) returns (queue: seq<Entry>)
      modifies this
      ensures rows == Reconciled(old(rows), snapshot, now).rows
      ensures queue == Reconciled(old(rows), snapshot, now).queue
      ensures rows.Keys == Ids(snapshot)
      ensures IsSubsequence(queue, snapshot)
      ensures DistinctIds(snapshot) ==> queue == Selected(old(rows), snapshot, now)
    {
      var ids := Ids(snapshot);
      var toRemove := set id | id in rows && id !in ids;
      while toRemove != {}
        invariant toRemove == set id | id in rows && id !in ids
        invariant rows.Keys <= old(rows).Keys
        invariant old(rows).Keys * ids <= rows.Keys
        invariant forall id :: id in rows ==> rows[id] == old(rows)[id]
        decreases |toRemove|
      {
        var id :| id in toRemove;
        rows := map k | k in rows && k != id :: rows[k];
        toRemove := toRemove - {id};
      }
      forall id | id in rows ensures id in ids {
        assert id !in toRemove;
      }
      assert rows.Keys == old(rows).Keys * ids;
      assert rows == Prune(old(rows), snapshot);

      ghost var pruned := rows;
      queue := [];
      for i := 0 to |snapshot|
        invariant Pass(rows, queue) == Sweep(pruned, snapshot[..i], now)
      {
        var e := snapshot[i];
        assert snapshot[..i + 1][..i] == snapshot[..i];
        if e.id !in rows {
          rows := rows[e.id := Inserted(e.title, now)];
          queue := queue + [e];
        } else if NeedsRefresh(rows[e.id], e.title, now) {
          rows := rows[e.id := Refreshed(rows[e.id], e.title, now)];
          queue := queue + [e];
        }
      }
      assert snapshot[..|snapshot|] == snapshot;
      SweepQueueIsSubsequence(pruned, snapshot, now);
      if DistinctIds(snapshot) {
        ReconcileByEntry(old(rows), snapshot, now);
      }
    }

    /**
     * `processReminder`: look the title up and write the outcome to the entry's
     * row; `failed` is whether the call threw.
     */
    method ProcessReminder(e: Entry, fetch: Fetch) returns (failed: bool)
      modifies this
      ensures rows == WriteBack(old(rows), e, fetch)
      ensures failed <==> Lookup(fetch, e.title).Failure?
    {
      var outcome := Lookup(fetch, e.title);
      match outcome {
        case Success(loc) =>
          if e.id in rows {
            rows := rows[e.id := rows[e.id].(aisle := loc.aisle, image := loc.image, error := false)];
          }
          failed := false;
        case Failure(_) =>
          if e.id in rows {
            rows := rows[e.id := rows[e.id].(error := true)];
          }
          failed := true;
      }
    }

    /** The drain loop of `storeReminders`: every entry is processed, failures only set `rejected`. */
    method Process(queue: seq<Entry>, fetch: Fetch) returns (rejected: bool)
      modifies this
      ensures rows == Drain(old(rows), queue, fetch)
      ensures rejected <==> AnyFailed(queue, fetch)
    {
      rejected := false;
      for index := 0 to |queue|
        invariant rows == Drain(old(rows), queue[..index], fetch)
        invariant rejected <==> AnyFailed(queue[..index], fetch)
      {
        assert queue[..index + 1][..index] == queue[..index];
        var failed := ProcessReminder(queue[index], fetch);
        if failed {
          rejected := true;
        }
        assert AnyFailed(queue[..index + 1], fetch) <==>
               AnyFailed(queue[..index], fetch) || Lookup(fetch, queue[index].title).Failure?;
      }
      assert queue[..|queue|] == queue;
    }

    /** `storeReminders`: reconcile against the snapshot, then drain the queue. */
    method StoreReminders(snapshot: seq<Entry>, now: int, fetch: Fetch) returns (rejected: bool)
      modifies this
      ensures rows == Synced(old(rows), snapshot, now, fetch)
      ensures rejected <==> AnyFailed(Reconciled(old(rows), snapshot, now).queue, fetch)
    {
      var queue := Reconcile(snapshot, now);
      rejected := Process(queue, fetch);
    }
  }
}
