/** The upload command end to end: from the walk and the listing stream to the store. */
module SyncCommand {
  import opened GoStrings
  import opened Sync
  import opened SyncProofs

  // ---- The two inputs ----

  /** The last file with a remote key decides its entry, and only walked files have one. */
  lemma {:induction false} LocalFilesMeaning(prefix: string, walk: seq<WalkEntry>, key: string)
    ensures key in LocalFiles(prefix, walk) <==>
            exists i | 0 <= i < |walk| :: walk[i].File? && RemoteKey(prefix, walk[i].rel) == key
    ensures forall i | 0 <= i < |walk| && walk[i].File? && RemoteKey(prefix, walk[i].rel) == key
                       && (forall j | i < j < |walk| && walk[j].File? :: RemoteKey(prefix, walk[j].rel) != key) ::
              LocalFiles(prefix, walk)[key] == LocalFile(walk[i].path, walk[i].size)
  {
    if walk != [] {
      var before := walk[..|walk| - 1];
      LocalFilesMeaning(prefix, before, key);
      assert forall i | 0 <= i < |before| :: before[i] == walk[i];
    }
  }

  /** The remote key is the relative path under the destination, with one slash between, however the
      destination is written; so different files have different keys. */
  lemma RemoteKeyMeaning(dir: string, rel: string, other: string)
    requires !HasSuffix(dir, "/") && dir != ""
    ensures RemoteKey(dir, rel) == RemoteKey(dir + "/", rel) == dir + "/" + rel
    ensures RemoteKey("", rel) == rel
    ensures RemoteKey(dir, rel) == RemoteKey(dir, other) ==> rel == other
  {
    assert (dir + "/")[..|dir|] == dir;
    assert (dir + "/" + rel)[|dir| + 1..] == rel && (dir + "/" + other)[|dir| + 1..] == other;
  }

  /** The last entry of a key decides what was collected for it, and only listed keys are collected. */
  lemma {:induction false} CollectedMeaning(stream: seq<ListEntry>, key: string)
    ensures key in Collected(stream) <==> exists i | 0 <= i < |stream| :: stream[i].key == key
    ensures forall i | 0 <= i < |stream| && stream[i].key == key
                       && (forall j | i < j < |stream| :: stream[j].key != key) ::
              Collected(stream)[key] == stream[i].size
  {
    if stream != [] {
      var before := stream[..|stream| - 1];
      CollectedMeaning(before, key);
      assert forall i | 0 <= i < |before| :: before[i] == stream[i];
    }
  }

  /** The stream of a complete listing: an entry for every object under the prefix, and no other. */
  predicate Enumerates(stream: seq<ListEntry>, objects: Objects, prefix: string) {
    && (forall i | 0 <= i < |stream| ::
          stream[i].key in objects && HasPrefix(stream[i].key, prefix) && stream[i].size == objects[stream[i].key].size)
    && (forall key | key in objects && HasPrefix(key, prefix) :: exists i | 0 <= i < |stream| :: stream[i].key == key)
  }

  lemma LastEntry(stream: seq<ListEntry>, key: string, i: nat) returns (last: nat)
    requires i < |stream| && stream[i].key == key
    ensures i <= last < |stream| && stream[last].key == key
    ensures forall j | last < j < |stream| :: stream[j].key != key
    decreases |stream| - i
  {
    if j :| i < j < |stream| && stream[j].key == key {
      last := LastEntry(stream, key, j);
    } else {
      last := i;
    }
  }

  lemma CollectedIsListing(stream: seq<ListEntry>, objects: Objects, prefix: string)
    requires Enumerates(stream, objects, prefix)
    ensures Collected(stream) == Listing(objects, prefix)
  {
    var got, wanted := Collected(stream), Listing(objects, prefix);
    forall key ensures (key in got <==> key in wanted) && (key in got ==> got[key] == wanted[key]) {
      CollectedMeaning(stream, key);
      if key in got {
        var i :| 0 <= i < |stream| && stream[i].key == key;
        var last := LastEntry(stream, key, i);
        assert got[key] == stream[last].size;
      }
    }
  }

  // ---- The command ----

  /** The prefix lists exactly the local files, with their sizes. */
  predicate InSync(objects: Objects, prefix: string, walk: seq<WalkEntry>) {
    Listing(objects, prefix) == map key | key in LocalFiles(prefix, walk) :: LocalFiles(prefix, walk)[key].size
  }

  predicate FilesOnDisk(prefix: string, walk: seq<WalkEntry>, disk: map<string, Blob>) {
    forall key | key in LocalFiles(prefix, walk) :: LocalFiles(prefix, walk)[key].path in disk
  }

  /** Every file is read, every entry listed, every upload finds its file, every call is answered. */
  ghost predicate NothingFails(prefix: string, walk: seq<WalkEntry>, disk: map<string, Blob>, stream: seq<ListEntry>,
                               replies: nat -> Reply)
  {
    && Unreadable !in walk
    && (forall i | 0 <= i < |stream| :: stream[i].size != -1)
    && FilesOnDisk(prefix, walk, disk)
    && forall i: nat :: replies(i).Done?
  }

  /** Where a key stands after a sync in which nothing failed. A local file is there: the old object if that had
      its size, else what was uploaded. Any other key under the prefix is gone if deleting was asked for, and
      nothing else has changed. */
  predicate KeySynced(before: Objects, after: Objects, prefix: string, walk: seq<WalkEntry>, disk: map<string, Blob>,
                      delete: bool, key: string)
    requires FilesOnDisk(prefix, walk, disk)
  {
    var local := LocalFiles(prefix, walk);
    if key in local then
      key in after && after[key] == if key in before && before[key].size == local[key].size then before[key]
                                    else disk[local[key].path].(size := local[key].size)
    else if delete && HasPrefix(key, prefix) then key !in after
    else if key in before then key in after && after[key] == before[key]
    else key !in after
  }

  ghost predicate Synced(before: Objects, after: Objects, prefix: string, walk: seq<WalkEntry>,
                         disk: map<string, Blob>, delete: bool)
    requires FilesOnDisk(prefix, walk, disk)
  {
    forall key :: KeySynced(before, after, prefix, walk, disk, delete, key)
  }

  lemma PlanFilesThere(prefix: string, walk: seq<WalkEntry>, disk: map<string, Blob>, remote: map<string, int>,
                       delete: bool, plan: seq<Op>)
    requires IsPlan(plan, LocalFiles(prefix, walk), remote, delete)
    requires FilesOnDisk(prefix, walk, disk)
    ensures FilesThere(plan, disk)
  {
    forall i | 0 <= i < |plan| && plan[i].Upload? ensures plan[i].path in disk {
      assert plan[i] in plan;
    }
  }

  lemma PlanSyncs(prefix: string, walk: seq<WalkEntry>, disk: map<string, Blob>, objects: Objects, delete: bool,
                  plan: seq<Op>)
    requires IsPlan(plan, LocalFiles(prefix, walk), Listing(objects, prefix), delete)
    requires FilesOnDisk(prefix, walk, disk)
    ensures Synced(objects, ApplyAll(objects, disk, plan), prefix, walk, disk, delete)
  {
    PlanFilesThere(prefix, walk, disk, Listing(objects, prefix), delete, plan);
    forall key ensures KeySynced(objects, ApplyAll(objects, disk, plan), prefix, walk, disk, delete, key) {
      KeyAfterPlan(prefix, walk, disk, objects, delete, plan, key);
    }
  }

  lemma KeyAfterPlan(prefix: string, walk: seq<WalkEntry>, disk: map<string, Blob>, objects: Objects, delete: bool,
                     plan: seq<Op>, key: string)
    requires IsPlan(plan, LocalFiles(prefix, walk), Listing(objects, prefix), delete) && FilesThere(plan, disk)
    requires FilesOnDisk(prefix, walk, disk)
    ensures KeySynced(objects, ApplyAll(objects, disk, plan), prefix, walk, disk, delete, key)
  {
    var local := LocalFiles(prefix, walk);
    if key in local {
      LocalKeysUnderPrefix(prefix, walk, key);
      assert Upload(key, local[key].path, local[key].size) in plan
        <==> !(key in objects && objects[key].size == local[key].size);
    } else {
      assert DeleteRemote(key) in plan <==> delete && key in objects && HasPrefix(key, prefix);
    }
    if op :| op in plan && op.key == key {
      EffectOnTouched(objects, disk, plan, op);
    } else {
      EffectOnUntouched(objects, disk, plan, key);
    }
  }

  /** What deleting makes of it: the prefix lists exactly the local files. */
  lemma SyncedIsInSync(before: Objects, after: Objects, prefix: string, walk: seq<WalkEntry>, disk: map<string, Blob>)
    requires FilesOnDisk(prefix, walk, disk)
    requires Synced(before, after, prefix, walk, disk, true)
    ensures InSync(after, prefix, walk)
  {
    var local := LocalFiles(prefix, walk);
    forall key ensures KeySynced(before, after, prefix, walk, disk, true, key)
               ensures key in Listing(after, prefix) <==> key in local
               ensures key in local ==> Listing(after, prefix)[key] == local[key].size
    {
      if key in local {
        LocalKeysUnderPrefix(prefix, walk, key);
      }
    }
  }

  lemma InSyncNeedsNothing(objects: Objects, prefix: string, walk: seq<WalkEntry>, delete: bool, plan: seq<Op>)
    requires InSync(objects, prefix, walk)
    requires IsPlan(plan, LocalFiles(prefix, walk), Listing(objects, prefix), delete)
    ensures plan == []
  {
    if plan != [] {
      assert plan[0] in plan;
      InSyncPlansNothing(objects, prefix, walk, delete, plan[0]);
    }
  }

  lemma InSyncPlansNothing(objects: Objects, prefix: string, walk: seq<WalkEntry>, delete: bool, op: Op)
    requires InSync(objects, prefix, walk)
    ensures !Planned(op, LocalFiles(prefix, walk), Listing(objects, prefix), delete)
  {
  }

  /** syncUpload. An entry that cannot be read or listed, and a dry run, leave the store as it was; otherwise a
      plan is executed, with the outcome Executed spells out. If the listing was complete and nothing failed, the
      store is in the state Synced describes, and with deleting the prefix lists exactly the local files; where it
      did so before, nothing is done, so a second call completes no operation. */
  method SyncUpload(bucket: Bucket, prefix: string, walk: seq<WalkEntry>, disk: map<string, Blob>,
                    stream: seq<ListEntry>, delete: bool, dryRun: bool, replies: nat -> Reply)
      returns (ghost plan: seq<Op>, completed: seq<Op>, ok: bool)
    modifies bucket
    ensures Unreadable in walk || (exists e | e in stream :: e.size == -1) ==>
            !ok && completed == [] && bucket.objects == old(bucket.objects)
    ensures Unreadable !in walk && (forall e | e in stream :: e.size != -1) ==>
            && IsPlan(plan, LocalFiles(prefix, walk), Collected(stream), delete)
            && (dryRun ==> ok && completed == [] && bucket.objects == old(bucket.objects))
            && (!dryRun ==> Executed(old(bucket.objects), bucket.objects, disk, plan, replies, completed, ok))
    ensures !dryRun && NothingFails(prefix, walk, disk, stream, replies)
            && Enumerates(stream, old(bucket.objects), prefix) ==>
            && ok
            && Synced(old(bucket.objects), bucket.objects, prefix, walk, disk, delete)
            && (delete ==> InSync(bucket.objects, prefix, walk))
    ensures Enumerates(stream, old(bucket.objects), prefix) && InSync(old(bucket.objects), prefix, walk) ==>
            completed == [] && bucket.objects == old(bucket.objects)
  {
    plan, completed := [], [];
    var walked, sizes, paths := WalkLocal(prefix, walk);
    if !walked {
      return plan, completed, false;
    }
    var remote := ListRemote(stream);
    if remote.Err? {
      return plan, completed, false;
    }
    var built := BuildPlan(sizes, paths, remote.value, delete);
    plan := built;
    completed, ok := ExecutePlan(bucket, disk, built, replies, dryRun);
    CompleteRun(old(bucket.objects), bucket.objects, prefix, walk, disk, stream, delete, dryRun, replies, built,
                completed, ok);
  }

  lemma CompleteRun(before: Objects, after: Objects, prefix: string, walk: seq<WalkEntry>, disk: map<string, Blob>,
                    stream: seq<ListEntry>, delete: bool, dryRun: bool, replies: nat -> Reply, plan: seq<Op>,
                    completed: seq<Op>, ok: bool)
    requires IsPlan(plan, LocalFiles(prefix, walk), Collected(stream), delete)
    requires if dryRun then ok && completed == [] && after == before
             else Executed(before, after, disk, plan, replies, completed, ok)
    ensures !dryRun && NothingFails(prefix, walk, disk, stream, replies) && Enumerates(stream, before, prefix) ==>
            && ok
            && Synced(before, after, prefix, walk, disk, delete)
            && (delete ==> InSync(after, prefix, walk))
    ensures Enumerates(stream, before, prefix) && InSync(before, prefix, walk) ==> completed == [] && after == before
  {
    if Enumerates(stream, before, prefix) {
      CollectedIsListing(stream, before, prefix);
      if InSync(before, prefix, walk) {
        InSyncNeedsNothing(before, prefix, walk, delete, plan);
      }
      if !dryRun && NothingFails(prefix, walk, disk, stream, replies) {
        PlanFilesThere(prefix, walk, disk, Listing(before, prefix), delete, plan);
        PlanSyncs(prefix, walk, disk, before, delete, plan);
        if delete {
          SyncedIsInSync(before, after, prefix, walk, disk);
        }
      }
    }
  }
}
