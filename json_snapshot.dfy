/**
 * JsonSnapshotManager (src/infrastructure/snapshot/json_snapshot.py): saves
 * an execution context as a snapshot record that expires 24 hours after it
 * is taken, restores it while it has not expired, lists the live snapshots
 * and deletes snapshots.
 *
 * The storage directory of `<id>.json` files is the map `files` from id to
 * record; writing a file is assigning a key, `unlink` is removing one. The
 * fresh uuid is the `id` parameter and the clock reading is `now`.
 */
module Snapshot {
  import opened Wrappers
  import opened Types

  /** The content of one snapshot file. */
  datatype Record = Record(id: string, labelText: string, timestamp: Time, context: ExecutionContext, expiresAt: Time)

  /** What `list_snapshots` reports about a snapshot: everything but the context. */
  datatype Summary = Summary(id: string, labelText: string, timestamp: Time, expiresAt: Time)

  /** Why a restore fails: no such file (`FileNotFoundError`) or past its expiry (`ValueError`). */
  datatype SnapshotError = NotFound | Expired

  type Files = map<string, Record>

  /** Definition: the record a snapshot taken at `now` is saved as (its use is stated by `RestoreCreated`). */
  function NewRecord(id: string, labelText: string, ctx: ExecutionContext, now: Time): (r: Record)
    ensures r.id == id && r.labelText == labelText && r.context == ctx
    ensures r.timestamp == now && r.expiresAt - r.timestamp == Day
  {
    Record(id, labelText, now, ctx, now + Day)
  }

  /** A snapshot can still be restored (and is listed) up to and including its expiry instant. */
  predicate Restorable(r: Record, now: Time) {
    now <= r.expiresAt
  }

  /** Definition: the listing entry of a record (its use is stated by `ListSnapshots`). */
  function SummaryOf(r: Record): (s: Summary)
    ensures s.id == r.id && s.labelText == r.labelText && s.timestamp == r.timestamp && s.expiresAt == r.expiresAt
  {
    Summary(r.id, r.labelText, r.timestamp, r.expiresAt)
  }

  /** Restoring from the directory `files` at `now`. */
  function Restore(files: Files, id: string, now: Time): (r: Result<ExecutionContext, SnapshotError>)
    ensures r == Err(NotFound) <==> id !in files
    ensures r == Err(Expired) <==> id in files && !Restorable(files[id], now)
    ensures r.Ok? <==> id in files && Restorable(files[id], now)
    ensures r.Ok? ==> r.value == files[id].context
  {
    if id !in files then Err(NotFound)
    else if now > files[id].expiresAt then Err(Expired)
    else Ok(files[id].context)
  }

  /** A snapshot just taken restores to the very context it captured until its 24 hours are up, and is expired after. */
  lemma RestoreCreated(files: Files, ctx: ExecutionContext, labelText: string, id: string, now: Time, later: Time)
    ensures Restore(files[id := NewRecord(id, labelText, ctx, now)], id, later) ==
      if later <= now + Day then Ok(ctx) else Err(Expired)
  {
  }

  /** Taking a snapshot or deleting one leaves the outcome of restoring any other snapshot as it was. */
  lemma RestoreOthers(files: Files, r: Record, id: string, other: string, now: Time)
    requires other != id
    ensures Restore(files[id := r], other, now) == Restore(files, other, now)
    ensures Restore(files - {id}, other, now) == Restore(files, other, now)
  {
  }

  class JsonSnapshotManager {
    /** The snapshot directory: file `<id>.json` holds `files[id]`. */
    var files: Files

    /** Every file holds the snapshot its name says. */
    ghost predicate Valid()
      reads this
    {
      forall id :: id in files ==> files[id].id == id
    }

    /** Opens the directory with whatever snapshots it already holds. */
    constructor (existing: Files)
      requires forall id :: id in existing ==> existing[id].id == id
      ensures Valid()
      ensures files == existing
    {
      files := existing;
    }

    /** `create_snapshot(execution_context, label)`: write a new record under a fresh id, expiring in 24 hours. */
    method CreateSnapshot(ctx: ExecutionContext, labelText: string, id: string, now: Time) returns (snapshotId: string)
      requires Valid()
      requires id !in files
      modifies this
      ensures Valid()
      ensures snapshotId == id
      ensures files == old(files)[id := NewRecord(id, labelText, ctx, now)]
      ensures files.Keys == old(files).Keys + {id}
    {
      files := files[id := NewRecord(id, labelText, ctx, now)];
      return id;
    }

    /** `restore_snapshot(snapshot_id)`: the captured context, or why it cannot be restored. */
    method RestoreSnapshot(snapshotId: string, now: Time) returns (r: Result<ExecutionContext, SnapshotError>)
      ensures r == Restore(files, snapshotId, now)
    {
      if snapshotId !in files {
        return Err(NotFound);
      }
      var record := files[snapshotId];
      if now > record.expiresAt {
        return Err(Expired);
      }
      return Ok(record.context);
    }

    /** `list_snapshots()`: a summary of every snapshot not yet expired, each once, in directory order. */
    method ListSnapshots(now: Time) returns (snapshots: seq<Summary>)
      requires Valid()
      ensures forall k :: 0 <= k < |snapshots| ==>
        snapshots[k].id in files && Restorable(files[snapshots[k].id], now) && snapshots[k] == SummaryOf(files[snapshots[k].id])
      ensures forall id :: id in files && Restorable(files[id], now) ==> SummaryOf(files[id]) in snapshots
      ensures forall i, j :: 0 <= i < j < |snapshots| ==> snapshots[i].id != snapshots[j].id
    {
      snapshots := [];
      var remaining := files.Keys;
      while remaining != {}
        invariant remaining <= files.Keys
        invariant forall k :: 0 <= k < |snapshots| ==>
          snapshots[k].id in files && snapshots[k].id !in remaining
          && Restorable(files[snapshots[k].id], now) && snapshots[k] == SummaryOf(files[snapshots[k].id])
        invariant forall id :: id in files && id !in remaining && Restorable(files[id], now) ==> SummaryOf(files[id]) in snapshots
        invariant forall i, j :: 0 <= i < j < |snapshots| ==> snapshots[i].id != snapshots[j].id
        decreases remaining
      {
        var id :| id in remaining;
        var record := files[id];
        if now <= record.expiresAt {
          snapshots := snapshots + [SummaryOf(record)];
        }
        remaining := remaining - {id};
      }
    }

    /** `delete(snapshot_id)`: remove the file, reporting whether there was one. */
    method Delete(snapshotId: string) returns (existed: bool)
      requires Valid()
      modifies this
      ensures Valid()
      ensures existed <==> snapshotId in old(files)
      ensures files == old(files) - {snapshotId}
    {
      existed := snapshotId in files;
      if existed {
        files := files - {snapshotId};
      }
    }
  }

  /** Taking a snapshot and restoring it before it expires gives back the captured context. */
  method CreateThenRestore(manager: JsonSnapshotManager, ctx: ExecutionContext, labelText: string, id: string, now: Time, later: Time)
      returns (r: Result<ExecutionContext, SnapshotError>)
    requires manager.Valid() && id !in manager.files
    requires later <= now + Day
    modifies manager
    ensures r == Ok(ctx)
  {
    var snapshotId := manager.CreateSnapshot(ctx, labelText, id, now);
    RestoreCreated(old(manager.files), ctx, labelText, id, now, later);
    r := manager.RestoreSnapshot(snapshotId, later);
  }
}
