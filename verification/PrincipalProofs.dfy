/** Two-run properties: what a decision does not depend on. */
module PrincipalProofs {
  import opened GoStrings
  import opened PolicyTypes
  import opened Matcher
  import opened PolicyCache
  import opened Resolver
  import opened Engine
  import opened DecisionProofs

  /** Equal as far as statement matching can tell: all but ownership, attachments, names and parent, and
      for anonymous requests all user data. */
  predicate SameToMatcher(a: Request, b: Request) {
    && a.action == b.action && a.resource == b.resource
    && a.conditions == b.conditions && a.varContext == b.varContext
    && SamePrincipal(a.principal, b.principal)
  }

  /** Both anonymous, or both signed in with the same access key, if any. */
  predicate SamePrincipal(p: Principal, q: Principal) {
    && p.isAnonymous == q.isAnonymous
    && (p.isAnonymous ||
        (&& (p.user.Some? <==> q.user.Some?)
         && (p.user.Some? ==> p.user.value.accessKey == q.user.value.accessKey)))
  }

  lemma SameStatement(w: Foreign, stmt: Statement, a: Request, b: Request)
    requires SameToMatcher(a, b)
    ensures StatementDecision(w, stmt, a) == StatementDecision(w, stmt, b)
  {
    forall v ensures MatchPrincipal(v, a.principal) <==> MatchPrincipal(v, b.principal) {
      SamePrincipalMatch(v, a.principal, b.principal);
    }
    assert ConditionContextOf(w, a) == ConditionContextOf(w, b);
  }

  lemma SamePrincipalMatch(v: Value, p: Principal, q: Principal)
    requires SamePrincipal(p, q)
    ensures MatchPrincipal(v, p) <==> MatchPrincipal(v, q)
  {
  }

  lemma SameDocument(w: Foreign, doc: Document, a: Request, b: Request)
    requires SameToMatcher(a, b)
    ensures DocumentDecision(w, doc, a) == DocumentDecision(w, doc, b)
  {
    forall stmt ensures StatementDecision(w, stmt, a) == StatementDecision(w, stmt, b) {
      SameStatement(w, stmt, a, b);
    }
  }

  lemma {:induction false} SameDocuments(w: Foreign, docs: seq<Document>, a: Request, b: Request)
    requires SameToMatcher(a, b)
    ensures FirstDecisive(w, docs, a) == FirstDecisive(w, docs, b)
  {
    if docs != [] {
      SameDocument(w, docs[0], a, b);
      SameDocuments(w, docs[1..], a, b);
    }
  }

  /** What one bucket document, or its absence, decides on its own; a service-level request has no bucket. */
  function BucketVerdict(w: Foreign, policies: BucketPolicies, req: Request): Decision {
    var b := req.resource.bucket;
    if b != "" && b in policies && policies[b].Some? then DocumentDecision(w, policies[b].value, req) else Deny
  }

  lemma SingleDocument(w: Foreign, doc: Document, req: Request)
    ensures FirstDecisive(w, [doc], req) == DocumentDecision(w, doc, req)
  {
    assert [doc][1..] == [];
  }

  lemma BucketAlone(w: Foreign, policies: BucketPolicies, req: Request)
    ensures FirstDecisive(w, BucketDocuments(policies, req.resource), req) == BucketVerdict(w, policies, req)
  {
    var docs := BucketDocuments(policies, req.resource);
    if docs != [] {
      SingleDocument(w, docs[0], req);
    }
  }

  /** An anonymous request is decided by the bucket's document alone: the resolver, the owners, and
      whatever user data or service-account fields come along make no difference. */
  lemma AnonymousIndependence(w: Foreign, policies: BucketPolicies, r1: Option<Metadata>, r2: Option<Metadata>,
                              a: Request, b: Request)
    requires SameToMatcher(a, b) && a.principal.isAnonymous
    requires !a.principal.isAdmin && !b.principal.isAdmin
    ensures Authorize(w, policies, r1, a) == Authorize(w, policies, r2, b)
         == BucketVerdict(w, policies, a)
  {
    AuthorizeIsFirstDecisive(w, policies, r1, a);
    AuthorizeIsFirstDecisive(w, policies, r2, b);
    var docs := BucketDocuments(policies, a.resource);
    assert Consulted(w, policies, r1, a) == docs && Consulted(w, policies, r2, b) == docs;
    SameDocuments(w, docs, a, b);
    BucketAlone(w, policies, a);
  }

  /** What the embedded text decides on its own: nothing when it is empty or does not parse. */
  function EmbeddedVerdict(w: Foreign, req: Request): Decision {
    var json := req.principal.embeddedPolicyJSON;
    if json != "" && w.parsePolicy(json).Some? then DocumentDecision(w, w.parsePolicy(json).value, req) else Deny
  }

  /** The exact decision of an override-mode service account: the bucket's document if it decides, else the
      embedded one, else a refusal, even to an owner. */
  lemma OverrideMeaning(w: Foreign, policies: BucketPolicies, resolver: Option<Metadata>, req: Request)
    requires req.principal.isServiceAccount && req.principal.policyMode == "override"
    requires !req.principal.isAdmin && !req.principal.isAnonymous
    ensures var bucket := BucketVerdict(w, policies, req);
            Authorize(w, policies, resolver, req) == if bucket != Deny then bucket else EmbeddedVerdict(w, req)
  {
    FirstOfFour(AdminStage(req), BucketStage(w, policies, req), IdentityStage(w, resolver, req), OwnershipStage(req));
    BucketAlone(w, policies, req);
    var docs := IdentityDocuments(w, resolver, req.principal);
    if docs != [] {
      assert docs == [docs[0]];
      SingleDocument(w, docs[0], req);
    }
  }

  /** It follows that the resolver, its attachments, its parent and the owners make no difference to it. */
  lemma OverrideIndependence(w: Foreign, policies: BucketPolicies, r1: Option<Metadata>, r2: Option<Metadata>,
                             a: Request, b: Request)
    requires SameToMatcher(a, b) && !a.principal.isAnonymous
    requires a.principal.IsOverride() && b.principal.IsOverride()
    requires a.principal.embeddedPolicyJSON == b.principal.embeddedPolicyJSON
    requires !a.principal.isAdmin && !b.principal.isAdmin
    ensures var bucket := BucketVerdict(w, policies, a);
            Authorize(w, policies, r1, a) == Authorize(w, policies, r2, b)
            == if bucket != Deny then bucket else EmbeddedVerdict(w, a)
  {
    OverrideMeaning(w, policies, r1, a);
    OverrideMeaning(w, policies, r2, b);
    forall doc ensures DocumentDecision(w, doc, a) == DocumentDecision(w, doc, b) {
      SameDocument(w, doc, a, b);
    }
  }

  /** The exact decision of every other signed-in principal: the bucket's document, then the documents of its
      effective names, then ownership of the bucket or, where there is a key, of the object. */
  lemma SignedInMeaning(w: Foreign, policies: BucketPolicies, md: Metadata, req: Request)
    requires !(req.principal.isServiceAccount && req.principal.policyMode == "override")
    requires !req.principal.isAdmin && !req.principal.isAnonymous
    ensures var bucket := BucketVerdict(w, policies, req);
            var named := FirstDecisive(w, Resolvable(md, EffectiveNames(md, req.principal)), req);
            Authorize(w, policies, Some(md), req) ==
            if bucket != Deny then bucket else if named != Deny then named else IfOwner(req)
  {
    BucketAlone(w, policies, req);
    FirstOfFour(AdminStage(req), BucketStage(w, policies, req), IdentityStage(w, Some(md), req), OwnershipStage(req));
  }

  /** Without a resolver there are no named policies. */
  lemma NoResolverMeaning(w: Foreign, policies: BucketPolicies, req: Request)
    requires !(req.principal.isServiceAccount && req.principal.policyMode == "override")
    requires !req.principal.isAdmin && !req.principal.isAnonymous
    ensures var bucket := BucketVerdict(w, policies, req);
            Authorize(w, policies, None, req) == if bucket != Deny then bucket else IfOwner(req)
  {
    BucketAlone(w, policies, req);
    FirstOfFour(AdminStage(req), BucketStage(w, policies, req), IdentityStage(w, None, req), OwnershipStage(req));
  }

  function IfOwner(req: Request): Decision {
    match req.principal.user
    case None => Deny
    case Some(user) =>
      if req.bucketOwner == Some(user.uuid) || (req.resource.key != "" && req.objectOwner == Some(user.uuid))
      then Allow else Deny
  }

  /** Of the whole metadata store, a decision depends only on the documents of the effective names. */
  lemma OnlyEffectivePoliciesMatter(w: Foreign, policies: BucketPolicies, md1: Metadata, md2: Metadata, req: Request)
    requires EffectiveNames(md1, req.principal) == EffectiveNames(md2, req.principal)
    requires forall n | n in EffectiveNames(md1, req.principal) :: md1.GetPolicyDocument(n) == md2.GetPolicyDocument(n)
    ensures Authorize(w, policies, Some(md1), req) == Authorize(w, policies, Some(md2), req)
  {
    SameResolution(md1, md2, EffectiveNames(md1, req.principal));
    FirstOfFour(AdminStage(req), BucketStage(w, policies, req), IdentityStage(w, Some(md1), req), OwnershipStage(req));
    FirstOfFour(AdminStage(req), BucketStage(w, policies, req), IdentityStage(w, Some(md2), req), OwnershipStage(req));
  }

  lemma {:induction false} SameResolution(md1: Metadata, md2: Metadata, names: seq<string>)
    requires forall n | n in names :: md1.GetPolicyDocument(n) == md2.GetPolicyDocument(n)
    ensures Resolvable(md1, names) == Resolvable(md2, names)
  {
    if names != [] {
      assert md1.GetPolicyDocument(names[0]) == md2.GetPolicyDocument(names[0]);
      SameResolution(md1, md2, names[1..]);
    }
  }

  // ---- Where effective names come from ----

  /** The user whose attachments a principal is judged by: itself, or a service account's parent. */
  function Bearer(p: Principal): Option<UUID> {
    if p.isServiceAccount then p.parentUserUUID
    else match p.user
      case None => None
      case Some(user) => Some(user.uuid)
  }

  /** The policies attached directly: as the request carries them, or as stored for a parent. */
  function Attached(md: Metadata, p: Principal): seq<string> {
    if !p.isServiceAccount then (if p.user.Some? then p.user.value.attachedPolicies else [])
    else if p.parentUserUUID.Some? && p.parentUserUUID.value in md.users then md.users[p.parentUserUUID.value]
    else []
  }

  /** A name is effective iff it is attached directly or by an active group of the bearer. A service
      account without a stored parent has none at all, and an unreadable group index adds none. */
  lemma EffectiveNameSources(md: Metadata, p: Principal, name: string)
    ensures name in EffectiveNames(md, p) <==>
            && Bearer(p).Some?
            && (p.isServiceAccount ==> Bearer(p).value in md.users)
            && (name in Attached(md, p)
                || (Bearer(p).value in md.groupIndex && Bearer(p).value !in md.corrupt
                    && exists g | g in md.groupIndex[Bearer(p).value] ::
                         md.Active(g) && name in md.groups[g].attachedPolicies))
  {
    if Bearer(p).Some? && Bearer(p).value in md.groupIndex {
      GrantedThroughGroup(md, md.groupIndex[Bearer(p).value], name);
    }
  }

  /** The groups a user's policies come through; none when the index entry is missing or unreadable. */
  function GroupsOf(md: Metadata, user: UUID): seq<string> {
    if user in md.groupIndex && user !in md.corrupt then md.groupIndex[user] else []
  }

  /** What one group of a list adds. */
  function FromGroup(md: Metadata, g: string): seq<string> {
    if g in md.groups && md.groups[g].status == "on" then md.groups[g].attachedPolicies else []
  }

  /** The order of the names, which decides between policies: those attached directly first, then group by
      group as the index lists them, where only an existing group whose status is "on" adds its own. */
  lemma EffectiveOrder(md: Metadata, p: Principal, before: seq<string>, g: string, after: seq<string>)
    requires Bearer(p).Some? && (p.isServiceAccount ==> Bearer(p).value in md.users)
    requires GroupsOf(md, Bearer(p).value) == before + [g] + after
    ensures EffectiveNames(md, p) ==
            Attached(md, p) + md.PoliciesOf(before) + FromGroup(md, g) + md.PoliciesOf(after)
  {
    AttachedThenGroups(md, p);
    PoliciesAround(md, before, g, after);
    Regroup(Attached(md, p), md.PoliciesOf(before), FromGroup(md, g), md.PoliciesOf(after));
  }

  lemma AttachedThenGroups(md: Metadata, p: Principal)
    requires Bearer(p).Some? && (p.isServiceAccount ==> Bearer(p).value in md.users)
    ensures EffectiveNames(md, p) == Attached(md, p) + md.PoliciesOf(GroupsOf(md, Bearer(p).value))
  {
  }

  lemma PoliciesAround(md: Metadata, before: seq<string>, g: string, after: seq<string>)
    ensures md.PoliciesOf(before + [g] + after)
         == md.PoliciesOf(before) + (FromGroup(md, g) + md.PoliciesOf(after))
  {
    assert before + [g] + after == before + ([g] + after);
    PoliciesInOrder(md, before, [g] + after);
    assert ([g] + after)[1..] == after;
  }

  lemma Regroup(a: seq<string>, b: seq<string>, c: seq<string>, d: seq<string>)
    ensures a + (b + (c + d)) == a + b + c + d
  {
  }

  lemma {:induction false} PoliciesInOrder(md: Metadata, xs: seq<string>, ys: seq<string>)
    ensures md.PoliciesOf(xs + ys) == md.PoliciesOf(xs) + md.PoliciesOf(ys)
  {
    if xs == [] {
      assert xs + ys == ys;
    } else {
      assert (xs + ys)[1..] == xs[1..] + ys;
      PoliciesInOrder(md, xs[1..], ys);
    }
  }

  /** Without groups the names are those attached directly. */
  lemma NoGroups(md: Metadata, p: Principal)
    requires Bearer(p).Some? && GroupsOf(md, Bearer(p).value) == []
    ensures EffectiveNames(md, p) == Attached(md, p)
  {
  }

  /** A policy attached directly decides before any policy of a group. */
  lemma OwnBeforeGroups(w: Foreign, md: Metadata, p: Principal, req: Request)
    ensures var own := FirstDecisive(w, Resolvable(md, Attached(md, p)), req);
            own != Deny ==> FirstDecisive(w, Resolvable(md, EffectiveNames(md, p)), req) == own
  {
    if p.isServiceAccount && (p.parentUserUUID.None? || p.parentUserUUID.value !in md.users) {
    } else if Bearer(p).Some? {
      var groups := GroupsOf(md, Bearer(p).value);
      AttachedThenGroups(md, p);
      NamedPoliciesCompose(w, md, Attached(md, p), md.PoliciesOf(groups), "", req);
    }
  }

  // ---- Inherit-mode service accounts ----

  predicate PrincipalFree(doc: Document) {
    forall s | s in doc.statements :: s.principal == Nil && s.notPrincipal == Nil
  }

  /** `sa` is an inherit-mode service account of `user`, whose stored attachments are those the
      request carries. */
  predicate Inherits(md: Metadata, sa: Principal, user: Principal) {
    && !user.isServiceAccount && user.user.Some? && !user.isAnonymous && !user.isAdmin
    && sa.isServiceAccount && !sa.IsOverride() && !sa.isAnonymous && !sa.isAdmin
    && sa.parentUserUUID == Some(user.user.value.uuid)
    && md.GetUserPolicyNames(user.user.value.uuid) == Ok(user.user.value.attachedPolicies)
  }

  lemma {:induction false} PrincipalFreeDocuments(w: Foreign, docs: seq<Document>, a: Request, b: Request)
    requires forall doc | doc in docs :: PrincipalFree(doc)
    requires b == a.(principal := b.principal, bucketOwner := b.bucketOwner, objectOwner := b.objectOwner)
    ensures FirstDecisive(w, docs, a) == FirstDecisive(w, docs, b)
  {
    if docs != [] {
      var doc := docs[0];
      assert PrincipalFree(doc);
      assert ConditionContextOf(w, a) == ConditionContextOf(w, b);
      forall stmt | stmt in doc.statements ensures StatementDecision(w, stmt, a) == StatementDecision(w, stmt, b) {
        assert stmt.principal == Nil && stmt.notPrincipal == Nil;
      }
      assert forall d :: AnyStatement(w, doc, a, d) <==> AnyStatement(w, doc, b, d);
      PrincipalFreeDocuments(w, docs[1..], a, b);
    }
  }

  /** Inherit parity: the service account resolves the names its parent does, gets the same
      identity-stage decision from principal-free documents, and, when the bucket's document is
      principal-free and ownership comes out alike, the same answer altogether. */
  lemma InheritParity(w: Foreign, policies: BucketPolicies, md: Metadata, sa: Request, user: Request)
    requires sa == user.(principal := sa.principal, bucketOwner := sa.bucketOwner, objectOwner := sa.objectOwner)
    requires Inherits(md, sa.principal, user.principal)
    ensures EffectiveNames(md, sa.principal) == EffectiveNames(md, user.principal)
    ensures (forall doc | doc in IdentityDocuments(w, Some(md), user.principal) :: PrincipalFree(doc)) ==>
            IdentityStage(w, Some(md), sa) == IdentityStage(w, Some(md), user)
    ensures (forall doc | doc in Consulted(w, policies, Some(md), user) :: PrincipalFree(doc))
            && (Owns(sa) <==> Owns(user)) ==>
            Authorize(w, policies, Some(md), sa) == Authorize(w, policies, Some(md), user)
  {
    var docs := IdentityDocuments(w, Some(md), user.principal);
    assert IdentityDocuments(w, Some(md), sa.principal) == docs;
    if forall doc | doc in docs :: PrincipalFree(doc) {
      PrincipalFreeDocuments(w, docs, user, sa);
    }
    var all := Consulted(w, policies, Some(md), user);
    if forall doc | doc in all :: PrincipalFree(doc) {
      AuthorizeIsFirstDecisive(w, policies, Some(md), sa);
      AuthorizeIsFirstDecisive(w, policies, Some(md), user);
      PrincipalFreeDocuments(w, all, user, sa);
    }
  }

  // ---- Bucket policy writes ----

  /** After any history of writes, a decision depends on the history only through the last write that
      touches the request's own bucket: a load leaves what the loaded map holds, an update its document, and
      a delete the decision without a policy. */
  lemma DecisionAfterWrites(w: Foreign, history: seq<Write>, k: nat, resolver: Option<Metadata>, req: Request)
    requires k < |history| && history[k].Touches(req.resource.bucket)
    requires forall i | k < i < |history| :: !history[i].Touches(req.resource.bucket)
    ensures var now := Authorize(w, Run(map[], history), resolver, req);
            match history[k]
            case Load(m) => now == Authorize(w, m, resolver, req)
            case Update(_, doc) => now == Authorize(w, map[req.resource.bucket := Some(doc)], resolver, req)
            case Delete(_) => now == Authorize(w, map[], resolver, req)
  {
    var b := req.resource.bucket;
    LastWriteWins(map[], history, b, k);
    match history[k]
    case Load(m) => SameLookup(w, Run(map[], history), m, resolver, req);
    case Update(_, doc) => SameLookup(w, Run(map[], history), map[b := Some(doc)], resolver, req);
    case Delete(_) => SameLookup(w, Run(map[], history), map[], resolver, req);
  }

  lemma SameLookup(w: Foreign, m1: BucketPolicies, m2: BucketPolicies, resolver: Option<Metadata>, req: Request)
    requires Lookup(m1, req.resource.bucket) == Lookup(m2, req.resource.bucket)
    ensures Authorize(w, m1, resolver, req) == Authorize(w, m2, resolver, req)
  {
  }

  /** Writes to other buckets change no decision, wherever they come in the history. */
  lemma OtherBucketsIrrelevant(w: Foreign, m: BucketPolicies, history: seq<Write>, resolver: Option<Metadata>,
                               req: Request)
    requires forall i | 0 <= i < |history| :: !history[i].Touches(req.resource.bucket)
    ensures Authorize(w, Run(m, history), resolver, req) == Authorize(w, m, resolver, req)
  {
    UntouchedStays(m, history, req.resource.bucket);
    SameLookup(w, Run(m, history), m, resolver, req);
  }
}
