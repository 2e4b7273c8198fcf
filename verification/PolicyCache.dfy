/** The in-memory policy cache. A Go map is a shared object, so it is one here: loading keeps the
    caller's map by reference, the debugging snapshot is a fresh copy. Each method is one atomic
    step under the cache's lock. */
module PolicyCache {
  import opened GoStrings
  import opened PolicyTypes

  /** Bucket name to document; a stored None is a nil pointer in a loaded map. */
  type BucketPolicies = map<string, Option<Document>>

  function Lookup(m: BucketPolicies, bucket: string): Option<Document> {
    if bucket in m then m[bucket] else None
  }

  function Put(m: BucketPolicies, bucket: string, policy: Option<Document>): BucketPolicies {
    if policy.None? then m - {bucket} else m[bucket := policy]
  }

  class GoMap<K(==), V> {
    var entries: map<K, V>

    constructor (init: map<K, V>)
      ensures entries == init
    {
      entries := init;
    }
  }

  class Cache {
    var bucketPolicies: GoMap<string, Option<Document>>
    var userPolicies: GoMap<string, seq<Document>>

    constructor ()
      ensures fresh(bucketPolicies) && fresh(userPolicies)
      ensures bucketPolicies.entries == map[] && userPolicies.entries == map[]
    {
      bucketPolicies := new GoMap(map[]);
      userPolicies := new GoMap(map[]);
    }

    function Policies(): BucketPolicies
      reads this, bucketPolicies
    {
      bucketPolicies.entries
    }

    method GetBucketPolicy(bucket: string) returns (policy: Option<Document>)
      ensures policy == Lookup(Policies(), bucket)
    {
      policy := if bucket in bucketPolicies.entries then bucketPolicies.entries[bucket] else None;
    }

    method SetBucketPolicy(bucket: string, policy: Option<Document>)
      modifies bucketPolicies
      ensures Policies() == if policy.Some? then old(Policies())[bucket := policy] else old(Policies()) - {bucket}
    {
      if policy.None? {
        bucketPolicies.entries := bucketPolicies.entries - {bucket};
      } else {
        bucketPolicies.entries := bucketPolicies.entries[bucket := policy];
      }
    }

    method LoadBucketPolicies(policies: GoMap<string, Option<Document>>)
      modifies this
      ensures bucketPolicies == policies && userPolicies == old(userPolicies)
    {
      bucketPolicies := policies;
    }

    method HasBucketPolicy(bucket: string) returns (exists_: bool)
      ensures exists_ <==> bucket in Policies()
    {
      exists_ := bucket in bucketPolicies.entries;
    }

    /** The result shares nothing with the cache: no later write to it can reach the cache. */
    method GetAllBucketPolicies() returns (copy: GoMap<string, Option<Document>>)
      ensures fresh(copy) && copy.entries == Policies()
    {
      copy := new GoMap(map[]);
      copy.entries := copy.entries + bucketPolicies.entries;
    }

    method BucketPolicyCount() returns (n: nat)
      ensures n == |Policies()|
    {
      n := |bucketPolicies.entries|;
    }

    method GetUserPolicies(username: string) returns (policies: seq<Document>)
      ensures policies == if username in userPolicies.entries then userPolicies.entries[username] else []
    {
      policies := if username in userPolicies.entries then userPolicies.entries[username] else [];
    }

    method SetUserPolicies(username: string, policies: seq<Document>)
      modifies userPolicies
      ensures userPolicies.entries ==
              if policies == [] then old(userPolicies.entries) - {username}
              else old(userPolicies.entries)[username := policies]
    {
      if |policies| == 0 {
        userPolicies.entries := userPolicies.entries - {username};
      } else {
        userPolicies.entries := userPolicies.entries[username := policies];
      }
    }
  }

  // ---- Histories of writes ----

  datatype Write = Load(policies: BucketPolicies) | Update(bucket: string, doc: Document) | Delete(bucket: string)
  {
    predicate Touches(b: string) {
      Load? || bucket == b
    }
  }

  function Step(m: BucketPolicies, write: Write): BucketPolicies {
    match write
    case Load(policies) => policies
    case Update(b, doc) => Put(m, b, Some(doc))
    case Delete(b) => Put(m, b, None)
  }

  function Run(m: BucketPolicies, history: seq<Write>): BucketPolicies
    decreases |history|
  {
    if history == [] then m else Run(Step(m, history[0]), history[1..])
  }

  /** The last write at or before the end that touches `b` decides what the cache holds for it: the entry of
      the loaded map, the document of the update, nothing after a delete. */
  lemma {:induction false} LastWriteWins(m: BucketPolicies, history: seq<Write>, b: string, k: nat)
    requires k < |history| && history[k].Touches(b)
    requires forall i | k < i < |history| :: !history[i].Touches(b)
    ensures Lookup(Run(m, history), b) ==
            match history[k]
            case Load(policies) => if b in policies then policies[b] else None
            case Update(_, doc) => Some(doc)
            case Delete(_) => None
    decreases |history|
  {
    if k == 0 {
      UntouchedStays(Step(m, history[0]), history[1..], b);
    } else {
      LastWriteWins(Step(m, history[0]), history[1..], b, k - 1);
    }
  }

  lemma {:induction false} UntouchedStays(m: BucketPolicies, history: seq<Write>, b: string)
    requires forall i | 0 <= i < |history| :: !history[i].Touches(b)
    ensures Lookup(Run(m, history), b) == Lookup(m, b)
    ensures b in Run(m, history) <==> b in m
    decreases |history|
  {
    if history != [] {
      assert !history[0].Touches(b);
      UntouchedStays(Step(m, history[0]), history[1..], b);
    }
  }

  predicate NoNilEntries(m: BucketPolicies) {
    forall b | b in m :: m[b].Some?
  }

  /** Has and Get agree after every history whose loaded maps hold no nil document. */
  lemma {:induction false} HasAgreesWithGet(m: BucketPolicies, history: seq<Write>)
    requires NoNilEntries(m)
    requires forall i | 0 <= i < |history| && history[i].Load? :: NoNilEntries(history[i].policies)
    ensures NoNilEntries(Run(m, history))
    ensures forall b :: b in Run(m, history) <==> Lookup(Run(m, history), b).Some?
    decreases |history|
  {
    if history != [] {
      HasAgreesWithGet(Step(m, history[0]), history[1..]);
    }
  }

  /** After any history they disagree on a bucket exactly when the last write touching it loaded a nil
      document for it: that entry shows up in Has only. */
  lemma {:induction false} HasDisagreesExactly(m: BucketPolicies, history: seq<Write>, b: string, k: nat)
    requires k < |history| && history[k].Touches(b)
    requires forall i | k < i < |history| :: !history[i].Touches(b)
    ensures (b in Run(m, history) <==> Lookup(Run(m, history), b).Some?)
       <==> !(history[k].Load? && b in history[k].policies && history[k].policies[b].None?)
    decreases |history|
  {
    if k == 0 {
      UntouchedStays(Step(m, history[0]), history[1..], b);
    } else {
      HasDisagreesExactly(Step(m, history[0]), history[1..], b, k - 1);
    }
  }
}
