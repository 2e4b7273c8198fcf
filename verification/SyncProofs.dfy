/** Convergence, resumption and reach of the upload sync. */
module SyncProofs {
  import opened GoStrings
  import opened Sync

  /** Every upload among the operations finds its file. */
  predicate FilesThere(ops: seq<Op>, disk: map<string, Blob>) {
    forall i | 0 <= i < |ops| && ops[i].Upload? :: ops[i].path in disk
  }

  /** Operations on distinct keys act independently: each key ends as its own operation leaves it, and
      a key without an operation is untouched. */
  lemma {:induction false} EffectOnUntouched(objects: Objects, disk: map<string, Blob>, ops: seq<Op>, key: string)
    requires FilesThere(ops, disk) && forall i | 0 <= i < |ops| :: ops[i].key != key
    ensures var final := ApplyAll(objects, disk, ops);
            (key in final <==> key in objects) && (key in final ==> final[key] == objects[key])
  {
    if ops != [] {
      EffectOnUntouched(objects, disk, ops[..|ops| - 1], key);
    }
  }

  lemma {:induction false} EffectOnTouched(objects: Objects, disk: map<string, Blob>, ops: seq<Op>, op: Op)
    requires FilesThere(ops, disk) && DistinctKeys(ops) && op in ops
    ensures op.Upload? ==> op.path in disk
    ensures var final := ApplyAll(objects, disk, ops);
            match op
            case Upload(key, path, size) => key in final && final[key] == disk[path].(size := size)
            case DeleteRemote(key) => key !in final
  {
    var last, rest := ops[|ops| - 1], ops[..|ops| - 1];
    if op == last {
    } else {
      assert op in rest;
      EffectOnTouched(objects, disk, rest, op);
      var i :| 0 <= i < |rest| && rest[i] == op;
      assert ops[i].key != last.key;
    }
  }

  // ---- Resumption ----

  /** Executing part of a plan: some of its operations, each at most once, in any order. */
  predicate PartOf(part: seq<Op>, plan: seq<Op>) {
    DistinctKeys(part) && forall op | op in part :: op in plan
  }

  lemma RemoteKeyUnderPrefix(prefix: string, rel: string)
    ensures HasPrefix(RemoteKey(prefix, rel), prefix)
  {
  }

  lemma {:induction false} LocalKeysUnderPrefix(prefix: string, walk: seq<WalkEntry>, key: string)
    requires key in LocalFiles(prefix, walk)
    ensures HasPrefix(key, prefix) && InDirectory(prefix, key)
  {
    var last := walk[|walk| - 1];
    if last.File? && key == RemoteKey(prefix, last.rel) {
      RemoteKeyUnderPrefix(prefix, last.rel);
    } else {
      LocalKeysUnderPrefix(prefix, walk[..|walk| - 1], key);
    }
  }

  /** After executing any part of the plan in any order, planning again asks for exactly the rest. */
  lemma Resumable(prefix: string, walk: seq<WalkEntry>, objects: Objects, disk: map<string, Blob>, delete: bool,
                  plan: seq<Op>, part: seq<Op>, op: Op)
    requires IsPlan(plan, LocalFiles(prefix, walk), Listing(objects, prefix), delete)
    requires PartOf(part, plan) && FilesThere(part, disk)
    ensures Planned(op, LocalFiles(prefix, walk), Listing(ApplyAll(objects, disk, part), prefix), delete)
       <==> op in plan && op !in part
  {
    var local, after := LocalFiles(prefix, walk), ApplyAll(objects, disk, part);
    if i :| 0 <= i < |part| && part[i].key == op.key {
      // The key was handled: nothing is left to do for it, and no other operation had it.
      assert part[i] in plan;
      EffectOnTouched(objects, disk, part, part[i]);
      if part[i].Upload? {
        LocalKeysUnderPrefix(prefix, walk, op.key);
      }
      if op in plan {
        SameKeySameOp(plan, op, part[i]);
      }
    } else {
      EffectOnUntouched(objects, disk, part, op.key);
    }
  }

  lemma SameKeySameOp(plan: seq<Op>, a: Op, b: Op)
    requires DistinctKeys(plan) && a in plan && b in plan && a.key == b.key
    ensures a == b
  {
  }

  /** Once the whole plan is done there is nothing left to plan. */
  lemma SecondRunDoesNothing(prefix: string, walk: seq<WalkEntry>, objects: Objects, disk: map<string, Blob>,
                             delete: bool, plan: seq<Op>, again: seq<Op>)
    requires IsPlan(plan, LocalFiles(prefix, walk), Listing(objects, prefix), delete) && FilesThere(plan, disk)
    requires IsPlan(again, LocalFiles(prefix, walk), Listing(ApplyAll(objects, disk, plan), prefix), delete)
    ensures again == []
  {
    if again != [] {
      Resumable(prefix, walk, objects, disk, delete, plan, plan, again[0]);
    }
  }

  /** The operations of the plan that were not executed, in plan order. */
  function Remaining(plan: seq<Op>, part: seq<Op>): seq<Op> {
    if plan == [] then []
    else
      var rest := Remaining(plan[..|plan| - 1], part);
      if plan[|plan| - 1] in part then rest else rest + [plan[|plan| - 1]]
  }

  lemma {:induction false} RemainingMeans(plan: seq<Op>, part: seq<Op>)
    requires DistinctKeys(plan)
    ensures forall op :: op in Remaining(plan, part) <==> op in plan && op !in part
    ensures DistinctKeys(Remaining(plan, part))
  {
    if plan != [] {
      var last, shorter := plan[|plan| - 1], plan[..|plan| - 1];
      RemainingMeans(shorter, part);
      var rest := Remaining(shorter, part);
      forall i | 0 <= i < |rest| ensures rest[i].key != last.key {
        assert rest[i] in shorter;
      }
      assert forall op :: op in plan <==> op in shorter || op == last;
    }
  }

  /** An interrupted run followed by a complete one ends where one complete run would have ended. */
  lemma ResumeReachesSame(prefix: string, walk: seq<WalkEntry>, objects: Objects, disk: map<string, Blob>,
                          delete: bool, plan: seq<Op>, part: seq<Op>, rest: seq<Op>)
    requires IsPlan(plan, LocalFiles(prefix, walk), Listing(objects, prefix), delete) && FilesThere(plan, disk)
    requires PartOf(part, plan)
    requires IsPlan(rest, LocalFiles(prefix, walk), Listing(ApplyAll(objects, disk, part), prefix), delete)
    ensures ApplyAll(ApplyAll(objects, disk, part), disk, rest) == ApplyAll(objects, disk, plan)
  {
    PartFilesThere(plan, part, disk);
    forall op ensures op in rest <==> op in plan && op !in part {
      Resumable(prefix, walk, objects, disk, delete, plan, part, op);
    }
    PartFilesThere(plan, rest, disk);
    var middle := ApplyAll(objects, disk, part);
    var a, b := ApplyAll(middle, disk, rest), ApplyAll(objects, disk, plan);
    forall key ensures (key in a <==> key in b) && (key in a ==> a[key] == b[key]) {
      SplitEffect(objects, disk, plan, part, rest, key);
    }
  }

  lemma PartFilesThere(plan: seq<Op>, part: seq<Op>, disk: map<string, Blob>)
    requires FilesThere(plan, disk) && forall op | op in part :: op in plan
    ensures FilesThere(part, disk)
  {
    forall i | 0 <= i < |part| && part[i].Upload? ensures part[i].path in disk {
      assert part[i] in plan;
    }
  }

  /** Splitting a plan in two leaves each key as the whole plan does. */
  lemma SplitEffect(objects: Objects, disk: map<string, Blob>, plan: seq<Op>, part: seq<Op>, rest: seq<Op>, key: string)
    requires DistinctKeys(plan) && DistinctKeys(part) && DistinctKeys(rest)
    requires FilesThere(plan, disk) && FilesThere(part, disk) && FilesThere(rest, disk)
    requires forall op | op in part :: op in plan
    requires forall op :: op in rest <==> op in plan && op !in part
    ensures var a, b := ApplyAll(ApplyAll(objects, disk, part), disk, rest), ApplyAll(objects, disk, plan);
            (key in a <==> key in b) && (key in a ==> a[key] == b[key])
  {
    var middle := ApplyAll(objects, disk, part);
    if op :| op in plan && op.key == key {
      EffectOnTouched(objects, disk, plan, op);
      if op in part {
        EffectOnTouched(objects, disk, part, op);
        forall i | 0 <= i < |rest| ensures rest[i].key != key {
          assert rest[i] in plan && rest[i] != op;
          if rest[i].key == key {
            SameKeySameOp(plan, rest[i], op);
          }
        }
        EffectOnUntouched(middle, disk, rest, key);
      } else {
        EffectOnTouched(middle, disk, rest, op);
      }
    } else {
      EffectOnUntouched(objects, disk, plan, key);
      forall i | 0 <= i < |part| ensures part[i].key != key {
        assert part[i] in plan;
      }
      EffectOnUntouched(objects, disk, part, key);
      forall i | 0 <= i < |rest| ensures rest[i].key != key {
        assert rest[i] in plan;
      }
      EffectOnUntouched(middle, disk, rest, key);
    }
  }

  /** The store after a series of interrupted runs. */
  function AfterAttempts(objects: Objects, disk: map<string, Blob>, attempts: seq<seq<Op>>): Objects
    decreases |attempts|
  {
    if attempts == [] then objects else AfterAttempts(ApplyAll(objects, disk, attempts[0]), disk, attempts[1..])
  }

  /** Each attempt executed some operations that were planned for the store it found. */
  ghost predicate AreAttempts(prefix: string, walk: seq<WalkEntry>, objects: Objects, disk: map<string, Blob>,
                              delete: bool, attempts: seq<seq<Op>>)
    decreases |attempts|
  {
    attempts == [] ||
    (&& DistinctKeys(attempts[0])
     && (forall op | op in attempts[0] :: Planned(op, LocalFiles(prefix, walk), Listing(objects, prefix), delete))
     && AreAttempts(prefix, walk, ApplyAll(objects, disk, attempts[0]), disk, delete, attempts[1..]))
  }

  /** However many times a sync is cut short, and wherever, the first complete run afterwards ends in the
      store that a single uninterrupted run would have produced. */
  lemma {:induction false} RetriesReachSame(prefix: string, walk: seq<WalkEntry>, objects: Objects,
                                            disk: map<string, Blob>, delete: bool, plan: seq<Op>,
                                            attempts: seq<seq<Op>>, last: seq<Op>)
    requires IsPlan(plan, LocalFiles(prefix, walk), Listing(objects, prefix), delete) && FilesThere(plan, disk)
    requires AreAttempts(prefix, walk, objects, disk, delete, attempts)
    requires IsPlan(last, LocalFiles(prefix, walk), Listing(AfterAttempts(objects, disk, attempts), prefix), delete)
    ensures FilesThere(last, disk)
    ensures ApplyAll(AfterAttempts(objects, disk, attempts), disk, last) == ApplyAll(objects, disk, plan)
    decreases |attempts|
  {
    if attempts == [] {
      PartFilesThere(plan, last, disk);
      OrderIrrelevant(LocalFiles(prefix, walk), Listing(objects, prefix), delete, objects, disk, last, plan);
    } else {
      var part := attempts[0];
      var middle := ApplyAll(objects, disk, part);
      var rest := Remaining(plan, part);
      PartFilesThere(plan, part, disk);
      RemainingMeans(plan, part);
      forall op ensures op in rest <==> Planned(op, LocalFiles(prefix, walk), Listing(middle, prefix), delete) {
        Resumable(prefix, walk, objects, disk, delete, plan, part, op);
      }
      PartFilesThere(plan, rest, disk);
      ResumeReachesSame(prefix, walk, objects, disk, delete, plan, part, rest);
      RetriesReachSame(prefix, walk, middle, disk, delete, rest, attempts[1..], last);
    }
  }

  /** What any single run does to the store, whether it succeeds or fails: it executes part of its plan,
      and on success all of it, every upload having found its file. */
  lemma RunExecutesPart(before: Objects, after: Objects, disk: map<string, Blob>, plan: seq<Op>,
                        replies: nat -> Reply, completed: seq<Op>, ok: bool)
    requires DistinctKeys(plan) && Executed(before, after, disk, plan, replies, completed, ok)
    ensures exists n: nat | n <= |plan| ::
              PartOf(plan[..n], plan) && FilesThere(plan[..n], disk) && after == ApplyAll(before, disk, plan[..n])
              && (ok ==> n == |plan|)
    ensures ok ==> FilesThere(plan, disk) && after == ApplyAll(before, disk, plan)
  {
    var n := |completed|;
    var m := if !ok && CallMade(plan[n], disk) && replies(n).ReplyLost? then n + 1 else n;
    assert completed == plan[..n];
    assert after == ApplyAll(before, disk, plan[..m]);
    assert PartOf(plan[..m], plan) && FilesThere(plan[..m], disk);
    assert ok ==> plan[..m] == plan;
  }

  // ---- Convergence ----

  /** What the listing said is true of the store. It may have missed objects, and it may hold entries
      that name nothing on either side, as the unrecognised error entry of a broken listing does. */
  predicate SoundListing(remote: map<string, int>, objects: Objects, prefix: string, local: map<string, LocalFile>) {
    forall key | key in remote ::
      || (key !in objects && key !in local)
      || (key in objects && HasPrefix(key, prefix) && objects[key].size == remote[key])
  }

  /** Where every key stands after a whole plan. Local files are there with their sizes; a remote extra
      is gone iff it was listed and --delete was given, else it is untouched; nothing outside the prefix
      changes. With a complete listing this is exact convergence. */
  lemma Converges(prefix: string, walk: seq<WalkEntry>, remote: map<string, int>, objects: Objects,
                  disk: map<string, Blob>, delete: bool, plan: seq<Op>, key: string)
    requires IsPlan(plan, LocalFiles(prefix, walk), remote, delete) && FilesThere(plan, disk)
    requires SoundListing(remote, objects, prefix, LocalFiles(prefix, walk))
    ensures var local, final := LocalFiles(prefix, walk), ApplyAll(objects, disk, plan);
            && (key in local ==> key in final && final[key].size == local[key].size)
            && (key !in local ==> (key in final <==> key in objects && !(delete && key in remote))
                                  && (key in final ==> final[key] == objects[key]))
            && (!HasPrefix(key, prefix) ==> (key in final <==> key in objects)
                                            && (key in final ==> final[key] == objects[key]))
  {
    var local := LocalFiles(prefix, walk);
    if key in local {
      LocalKeysUnderPrefix(prefix, walk, key);
    }
    if op :| op in plan && op.key == key {
      EffectOnTouched(objects, disk, plan, op);
    } else {
      EffectOnUntouched(objects, disk, plan, key);
      if key in local {
        assert !Planned(Upload(key, local[key].path, local[key].size), local, remote, delete);
      } else {
        assert !Planned(DeleteRemote(key), local, remote, delete);
      }
    }
  }

  /** With a complete listing and --delete, the remote side of the prefix becomes the local tree. */
  lemma MirrorsExactly(prefix: string, walk: seq<WalkEntry>, objects: Objects, disk: map<string, Blob>, plan: seq<Op>)
    requires IsPlan(plan, LocalFiles(prefix, walk), Listing(objects, prefix), true) && FilesThere(plan, disk)
    ensures var local, listed := LocalFiles(prefix, walk), Listing(ApplyAll(objects, disk, plan), prefix);
            listed == map key | key in local :: local[key].size
  {
    var local, final := LocalFiles(prefix, walk), ApplyAll(objects, disk, plan);
    forall key ensures key in Listing(final, prefix) <==> key in local
               ensures key in local ==> Listing(final, prefix)[key] == local[key].size
    {
      if key in local {
        LocalKeysUnderPrefix(prefix, walk, key);
      }
      Converges(prefix, walk, Listing(objects, prefix), objects, disk, true, plan, key);
    }
  }

  /** Plans of the same inputs differ in order only, and order cannot be seen in the store. */
  lemma OrderIrrelevant(local: map<string, LocalFile>, remote: map<string, int>, delete: bool, objects: Objects,
                        disk: map<string, Blob>, p: seq<Op>, q: seq<Op>)
    requires IsPlan(p, local, remote, delete) && IsPlan(q, local, remote, delete)
    requires FilesThere(p, disk) && FilesThere(q, disk)
    ensures ApplyAll(objects, disk, p) == ApplyAll(objects, disk, q)
  {
    var a, b := ApplyAll(objects, disk, p), ApplyAll(objects, disk, q);
    forall key ensures (key in a <==> key in b) && (key in a ==> a[key] == b[key]) {
      if op :| op in p && op.key == key {
        assert op in q;
        EffectOnTouched(objects, disk, p, op);
        EffectOnTouched(objects, disk, q, op);
      } else {
        forall i | 0 <= i < |q| ensures q[i].key != key {
          assert q[i] in p;
        }
        EffectOnUntouched(objects, disk, p, key);
        EffectOnUntouched(objects, disk, q, key);
      }
    }
  }

  predicate SameContent(local: map<string, LocalFile>, disk: map<string, Blob>, objects: Objects)
    requires forall key | key in local :: local[key].path in disk
  {
    forall key | key in local :: key in objects && objects[key].content == disk[local[key].path].content
  }

  /** No object of a local key has that file's size but other content. */
  predicate SizesTellContents(local: map<string, LocalFile>, disk: map<string, Blob>, objects: Objects)
    requires forall key | key in local :: local[key].path in disk
  {
    forall key | key in local && key in objects && objects[key].size == local[key].size ::
      objects[key].content == disk[local[key].path].content
  }

  /** Files are compared by size. A sync makes the remote content equal the local content exactly when no
      remote object of a local key had the file's size with other content before. */
  lemma ContentSyncedExactly(prefix: string, walk: seq<WalkEntry>, objects: Objects, disk: map<string, Blob>,
                             delete: bool, plan: seq<Op>)
    requires IsPlan(plan, LocalFiles(prefix, walk), Listing(objects, prefix), delete) && FilesThere(plan, disk)
    requires forall key | key in LocalFiles(prefix, walk) :: LocalFiles(prefix, walk)[key].path in disk
    ensures SameContent(LocalFiles(prefix, walk), disk, ApplyAll(objects, disk, plan))
       <==> SizesTellContents(LocalFiles(prefix, walk), disk, objects)
  {
    var local, final := LocalFiles(prefix, walk), ApplyAll(objects, disk, plan);
    forall key | key in local
      ensures key in final
      ensures if key in objects && objects[key].size == local[key].size then final[key] == objects[key]
              else final[key].content == disk[local[key].path].content
    {
      LocalKeysUnderPrefix(prefix, walk, key);
      var op := Upload(key, local[key].path, local[key].size);
      if Planned(op, local, Listing(objects, prefix), delete) {
        EffectOnTouched(objects, disk, plan, op);
      } else {
        forall i | 0 <= i < |plan| ensures plan[i].key != key {
          assert plan[i] in plan;
        }
        EffectOnUntouched(objects, disk, plan, key);
      }
    }
  }

  // ---- Reach of --delete ----

  /** The key lies in the destination directory. */
  predicate InDirectory(prefix: string, key: string) {
    prefix == "" || HasPrefix(key, TrimSuffix(prefix, "/") + "/")
  }

  ghost predicate DeletesOnlyInside(prefix: string, walk: seq<WalkEntry>) {
    forall objects: Objects, op: Op |
      op.DeleteRemote? && Planned(op, LocalFiles(prefix, walk), Listing(objects, prefix), true) ::
        InDirectory(prefix, op.key)
  }

  /** The listing takes the destination as a plain key prefix, so --delete keeps to the destination
      directory, whatever the bucket holds, exactly when the destination is written with its final
      slash or is the whole bucket. `backup` also reaches `backup2/...`. */
  lemma DeleteReach(prefix: string, walk: seq<WalkEntry>)
    ensures DeletesOnlyInside(prefix, walk) <==> prefix == "" || HasSuffix(prefix, "/")
  {
    if prefix == "" {
    } else if HasSuffix(prefix, "/") {
      assert prefix == TrimSuffix(prefix, "/") + "/";
    } else {
      var sibling := prefix + "2";
      var objects: Objects := map[sibling := Blob(1, 0)];
      assert (prefix + "/")[|prefix|] == '/' && sibling[|prefix|] == '2';
      assert !InDirectory(prefix, sibling);
      if sibling in LocalFiles(prefix, walk) {
        LocalKeysUnderPrefix(prefix, walk, sibling);
      }
      assert Planned(DeleteRemote(sibling), LocalFiles(prefix, walk), Listing(objects, prefix), true);
    }
  }
}
