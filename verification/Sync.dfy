/** `dio sync <dir> <bucket/prefix>`: the upload plan and its execution. */
module Sync {
  import opened GoStrings

  /** A local file or a remote object; `content` stands for its bytes. */
  datatype Blob = Blob(size: int, content: int)

  type Objects = map<string, Blob>

  /** What the directory walk reports: a file with its slash-separated relative path, its path on
      disk and its size; a directory; or an entry that cannot be read. */
  datatype WalkEntry =
    | File(rel: string, path: string, size: int)
    | Directory
    | Unreadable

  datatype LocalFile = LocalFile(path: string, size: int)

  datatype Op =
    | Upload(key: string, path: string, size: int)
    | DeleteRemote(key: string)

  function RemoteKey(prefix: string, rel: string): string {
    if prefix == "" then rel else TrimSuffix(prefix, "/") + "/" + rel
  }

  /** The files of a walk, by remote key; a later entry for the same key replaces an earlier one. */
  function LocalFiles(prefix: string, walk: seq<WalkEntry>): map<string, LocalFile> {
    if walk == [] then map[]
    else
      var last, before := walk[|walk| - 1], LocalFiles(prefix, walk[..|walk| - 1]);
      if last.File? then before[RemoteKey(prefix, last.rel) := LocalFile(last.path, last.size)] else before
  }

  /** A recursive listing: the keys that start with the prefix, to the letter. */
  function Listing(objects: Objects, prefix: string): map<string, int> {
    map key | key in objects && HasPrefix(key, prefix) :: objects[key].size
  }

  /** One entry of the listing stream. */
  datatype ListEntry = ListEntry(key: string, size: int)

  /** The map the listing loop fills. */
  function Collected(stream: seq<ListEntry>): map<string, int> {
    if stream == [] then map[]
    else Collected(stream[..|stream| - 1])[stream[|stream| - 1].key := stream[|stream| - 1].size]
  }

  /** The operations a plan must hold. */
  predicate Planned(op: Op, local: map<string, LocalFile>, remote: map<string, int>, delete: bool) {
    match op
    case Upload(key, path, size) =>
      && key in local && path == local[key].path && size == local[key].size
      && (key !in remote || remote[key] != size)
    case DeleteRemote(key) => delete && key in remote && key !in local
  }

  predicate DistinctKeys(plan: seq<Op>) {
    forall i, j | 0 <= i < j < |plan| :: plan[i].key != plan[j].key
  }

  /** Every planned operation once, in any order. */
  ghost predicate IsPlan(plan: seq<Op>, local: map<string, LocalFile>, remote: map<string, int>, delete: bool) {
    DistinctKeys(plan) && forall op :: op in plan <==> Planned(op, local, remote, delete)
  }

  /** The effect of one operation on the store, given the files on disk. */
  function Apply(objects: Objects, disk: map<string, Blob>, op: Op): Objects {
    match op
    case Upload(key, path, size) => if path in disk then objects[key := disk[path].(size := size)] else objects
    case DeleteRemote(key) => objects - {key}
  }

  function ApplyAll(objects: Objects, disk: map<string, Blob>, ops: seq<Op>): Objects {
    if ops == [] then objects
    else Apply(ApplyAll(objects, disk, ops[..|ops| - 1]), disk, ops[|ops| - 1])
  }

  /** How one remote call ends: done, refused without effect, or done with the reply lost. */
  datatype Reply = Done | Refused | ReplyLost

  /** An upload whose file cannot be opened makes no remote call. */
  predicate CallMade(op: Op, disk: map<string, Blob>) {
    op.Upload? ==> op.path in disk
  }

  /** The outcome of executing a plan, to the letter: operations run in order up to the first one that
      fails, success means there is none, and the failing one leaves its effect behind iff its call was
      made and only the reply was lost. */
  ghost predicate Executed(before: Objects, after: Objects, disk: map<string, Blob>, plan: seq<Op>,
                           replies: nat -> Reply, completed: seq<Op>, ok: bool)
  {
    var n := |completed|;
    && completed <= plan
    && (forall i | 0 <= i < n :: CallMade(plan[i], disk) && replies(i).Done?)
    && (ok <==> completed == plan)
    && (!ok ==> n < |plan| && !(CallMade(plan[n], disk) && replies(n).Done?))
    && after == ApplyAll(before, disk,
         if !ok && CallMade(plan[n], disk) && replies(n).ReplyLost? then plan[..n + 1] else completed)
  }

  class Bucket {
    var objects: Objects

    constructor (objects: Objects)
      ensures this.objects == objects
    {
      this.objects := objects;
    }

    method PutObject(key: string, data: Blob, reply: Reply) returns (ok: bool)
      modifies this
      ensures ok == reply.Done?
      ensures objects == if reply.Refused? then old(objects) else old(objects)[key := data]
    {
      if !reply.Refused? {
        objects := objects[key := data];
      }
      return reply.Done?;
    }

    method RemoveObject(key: string, reply: Reply) returns (ok: bool)
      modifies this
      ensures ok == reply.Done?
      ensures objects == if reply.Refused? then old(objects) else old(objects) - {key}
    {
      if !reply.Refused? {
        objects := objects - {key};
      }
      return reply.Done?;
    }
  }

  /** The walk callback, entry by entry, filling the two local maps; it gives up at the first entry it
      cannot read. */
  method WalkLocal(prefix: string, walk: seq<WalkEntry>)
      returns (ok: bool, sizes: map<string, int>, paths: map<string, string>)
    ensures ok <==> Unreadable !in walk
    ensures sizes.Keys == paths.Keys
    ensures ok ==> (map key | key in sizes :: LocalFile(paths[key], sizes[key])) == LocalFiles(prefix, walk)
  {
    sizes, paths := map[], map[];
    for i := 0 to |walk|
      invariant forall j | 0 <= j < i :: !walk[j].Unreadable?
      invariant sizes.Keys == paths.Keys == LocalFiles(prefix, walk[..i]).Keys
      invariant forall key | key in sizes :: LocalFiles(prefix, walk[..i])[key] == LocalFile(paths[key], sizes[key])
    {
      assert walk[..i + 1][..i] == walk[..i];
      match walk[i] {
        case Unreadable =>
          assert walk[i] in walk;
          return false, sizes, paths;
        case Directory =>
        case File(rel, path, size) =>
          var key := if prefix != "" then TrimSuffix(prefix, "/") + "/" + rel else rel;
          sizes := sizes[key := size];
          paths := paths[key := path];
      }
    }
    assert walk[..|walk|] == walk;
    return true, sizes, paths;
  }

  /** Collecting the listing stream. An entry of size -1, and only that, is taken as a server error. */
  method ListRemote(stream: seq<ListEntry>) returns (r: Result<map<string, int>>)
    ensures r.Err? <==> exists e | e in stream :: e.size == -1
    ensures r.Ok? ==> r.value == Collected(stream)
  {
    var remote: map<string, int> := map[];
    for i := 0 to |stream|
      invariant remote == Collected(stream[..i])
      invariant forall j | 0 <= j < i :: stream[j].size != -1
    {
      assert stream[..i + 1][..i] == stream[..i];
      if stream[i].size == -1 {
        assert stream[i] in stream;
        return Err("server error");
      }
      remote := remote[stream[i].key := stream[i].size];
    }
    assert stream[..|stream|] == stream;
    return Ok(remote);
  }

  /** Plan building. Both maps are visited in an unspecified order, so the plan is one of many. */
  method BuildPlan(sizes: map<string, int>, paths: map<string, string>, remote: map<string, int>, delete: bool)
      returns (plan: seq<Op>)
    requires sizes.Keys == paths.Keys
    ensures IsPlan(plan, map key | key in sizes :: LocalFile(paths[key], sizes[key]), remote, delete)
  {
    ghost var local := map key | key in sizes :: LocalFile(paths[key], sizes[key]);
    plan := [];
    var pending := sizes.Keys;
    while pending != {}
      invariant pending <= sizes.Keys && DistinctKeys(plan)
      invariant forall op | op in plan :: op.Upload? && op.key !in pending
      invariant forall op: Op :: op in plan <==> op.Upload? && op.key !in pending && Planned(op, local, remote, delete)
      decreases |pending|
    {
      var key :| key in pending;
      pending := pending - {key};
      if key !in remote || remote[key] != sizes[key] {
        plan := plan + [Upload(key, paths[key], sizes[key])];
      }
    }
    if delete {
      var extras := remote.Keys;
      while extras != {}
        invariant extras <= remote.Keys && DistinctKeys(plan)
        invariant forall op | op in plan :: op.key !in extras || op.key in local
        invariant forall op: Op :: op in plan <==>
          Planned(op, local, remote, delete) && (op.DeleteRemote? ==> op.key !in extras)
        decreases |extras|
      {
        var key :| key in extras;
        extras := extras - {key};
        if key !in sizes {
          plan := plan + [DeleteRemote(key)];
        }
      }
    }
  }

  lemma ApplyNext(objects: Objects, disk: map<string, Blob>, plan: seq<Op>, i: nat)
    requires i < |plan|
    ensures plan[..i + 1] == plan[..i] + [plan[i]]
    ensures ApplyAll(objects, disk, plan[..i + 1]) == Apply(ApplyAll(objects, disk, plan[..i]), disk, plan[i])
  {
    assert plan[..i + 1][..i] == plan[..i];
  }

  /** executePlan: in plan order, stopping at the first error. `replies` fixes how each call ends. */
  method ExecutePlan(bucket: Bucket, disk: map<string, Blob>, plan: seq<Op>, replies: nat -> Reply, dryRun: bool)
      returns (completed: seq<Op>, ok: bool)
    modifies bucket
    ensures dryRun ==> ok && completed == [] && bucket.objects == old(bucket.objects)
    ensures !dryRun ==> Executed(old(bucket.objects), bucket.objects, disk, plan, replies, completed, ok)
  {
    completed := [];
    if |plan| == 0 || dryRun {
      return completed, true;
    }
    for i := 0 to |plan|
      invariant completed == plan[..i]
      invariant bucket.objects == ApplyAll(old(bucket.objects), disk, completed)
      invariant forall j | 0 <= j < i :: CallMade(plan[j], disk) && replies(j).Done?
    {
      var op := plan[i];
      var done: bool;
      ApplyNext(old(bucket.objects), disk, plan, i);
      match op {
        case Upload(key, path, size) =>
          if path !in disk {
            return completed, false;
          }
          done := bucket.PutObject(key, disk[path].(size := size), replies(i));
        case DeleteRemote(key) =>
          done := bucket.RemoveObject(key, replies(i));
      }
      if !done {
        return completed, false;
      }
      completed := completed + [op];
    }
    return completed, true;
  }
}
