/** The policy engine: what it decides (as functions) and how it computes it (as methods). */
module Engine {
  import opened GoStrings
  import opened PolicyTypes
  import opened Matcher
  import opened PolicyCache
  import opened Resolver

  // ---- What is decided ----

  predicate AnyStatement(w: Foreign, doc: Document, req: Request, d: Decision) {
    exists stmt | stmt in doc.statements :: StatementDecision(w, stmt, req) == d
  }

  /** One document: a denying statement wins, else an allowing one, else no decision. */
  function DocumentDecision(w: Foreign, doc: Document, req: Request): Decision {
    if AnyStatement(w, doc, req, ExplicitDeny) then ExplicitDeny
    else if AnyStatement(w, doc, req, Allow) then Allow
    else Deny
  }

  /** The first document that reaches a decision decides. */
  function FirstDecisive(w: Foreign, docs: seq<Document>, req: Request): Decision {
    if docs == [] then Deny
    else
      var d := DocumentDecision(w, docs[0], req);
      if d != Deny then d else FirstDecisive(w, docs[1..], req)
  }

  /** The documents of the names that resolve, in order. */
  function Resolvable(md: Metadata, names: seq<string>): seq<Document> {
    if names == [] then []
    else (if names[0] in md.policies then [md.policies[names[0]]] else []) + Resolvable(md, names[1..])
  }

  function WithGroups(md: Metadata, own: seq<string>, user: UUID): seq<string> {
    match md.GroupPolicies(user)
    case Ok(names) => own + names
    case Err(_) => own
  }

  function EffectiveNames(md: Metadata, p: Principal): seq<string> {
    if !p.isServiceAccount then
      match p.user
      case None => []
      case Some(user) => WithGroups(md, user.attachedPolicies, user.uuid)
    else
      match p.parentUserUUID
      case None => []
      case Some(parent) =>
        match md.GetUserPolicyNames(parent)
        case Err(_) => []
        case Ok(own) => WithGroups(md, own, parent)
  }

  function EmbeddedDocuments(w: Foreign, p: Principal): seq<Document> {
    if p.embeddedPolicyJSON == "" then []
    else match w.parsePolicy(p.embeddedPolicyJSON)
      case None => []
      case Some(doc) => [doc]
  }

  /** The identity-side documents of a principal; a resolver of None skips the named policies. */
  function IdentityDocuments(w: Foreign, resolver: Option<Metadata>, p: Principal): seq<Document> {
    if p.isAnonymous then []
    else if p.IsOverride() then EmbeddedDocuments(w, p)
    else match resolver
      case None => []
      case Some(md) => Resolvable(md, EffectiveNames(md, p))
  }

  function BucketDocuments(policies: BucketPolicies, resource: Resource): seq<Document> {
    if resource.bucket == "" then []
    else match Lookup(policies, resource.bucket)
      case None => []
      case Some(doc) => [doc]
  }

  predicate Owns(req: Request) {
    && req.principal.user.Some?
    && var me := Some(req.principal.user.value.uuid);
       (req.resource.key != "" && req.objectOwner == me) || req.bucketOwner == me
  }

  /** The stages in order; None passes the request on to the next stage. */
  function AdminStage(req: Request): Option<Decision> {
    if req.principal.isAdmin then Some(Allow) else None
  }

  function Decisive(d: Decision): Option<Decision> {
    if d == Deny then None else Some(d)
  }

  function BucketStage(w: Foreign, policies: BucketPolicies, req: Request): Option<Decision> {
    Decisive(FirstDecisive(w, BucketDocuments(policies, req.resource), req))
  }

  /** A service account in override mode always stops here. */
  function IdentityStage(w: Foreign, resolver: Option<Metadata>, req: Request): Option<Decision> {
    var d := FirstDecisive(w, IdentityDocuments(w, resolver, req.principal), req);
    if !req.principal.isAnonymous && req.principal.IsOverride() then Some(d) else Decisive(d)
  }

  function OwnershipStage(req: Request): Option<Decision> {
    if !req.principal.isAnonymous && Owns(req) then Some(Allow) else None
  }

  function FirstOf(stages: seq<Option<Decision>>): Decision {
    if stages == [] then Deny
    else if stages[0].Some? then stages[0].value
    else FirstOf(stages[1..])
  }

  lemma FirstOfCons(s: Option<Decision>, rest: seq<Option<Decision>>)
    ensures FirstOf([s] + rest) == if s.Some? then s.value else FirstOf(rest)
  {
  }

  lemma FirstOfFour(a: Option<Decision>, b: Option<Decision>, c: Option<Decision>, d: Option<Decision>)
    ensures FirstOf([a, b, c, d]) ==
            if a.Some? then a.value else if b.Some? then b.value else if c.Some? then c.value
            else if d.Some? then d.value else Deny
  {
    assert [d] == [d] + [] && [c, d] == [c] + [d] && [b, c, d] == [b] + [c, d] && [a, b, c, d] == [a] + [b, c, d];
    FirstOfCons(d, []);
    FirstOfCons(c, [d]);
    FirstOfCons(b, [c, d]);
    FirstOfCons(a, [b, c, d]);
  }

  function Authorize(w: Foreign, policies: BucketPolicies, resolver: Option<Metadata>, req: Request): Decision {
    FirstOf([
      AdminStage(req),
      BucketStage(w, policies, req),
      IdentityStage(w, resolver, req),
      OwnershipStage(req)])
  }

  // ---- How it is computed ----

  /** The statement results collected along a document settle its decision. */
  lemma DecisionFromResults(w: Foreign, doc: Document, req: Request, results: seq<Decision>)
    requires |results| <= |doc.statements|
    requires forall j | 0 <= j < |results| :: results[j] == StatementDecision(w, doc.statements[j], req)
    ensures ExplicitDeny in results ==> DocumentDecision(w, doc, req) == ExplicitDeny
    ensures |results| == |doc.statements| && ExplicitDeny !in results ==>
            DocumentDecision(w, doc, req) == if Allow in results then Allow else Deny
  {
  }

  /** evaluatePolicy: one pass with a `hasAllow` flag, leaving early on an explicit deny. */
  method EvaluatePolicy(w: Foreign, doc: Document, req: Request) returns (d: Decision)
    ensures d == DocumentDecision(w, doc, req)
  {
    var hasAllow := false;
    ghost var results: seq<Decision> := [];
    for i := 0 to |doc.statements|
      invariant |results| == i
      invariant forall j | 0 <= j < i :: results[j] == StatementDecision(w, doc.statements[j], req)
      invariant ExplicitDeny !in results
      invariant hasAllow <==> Allow in results
    {
      var result := EvaluateStatement(w, doc.statements[i], req);
      results := results + [result];
      if result == ExplicitDeny {
        DecisionFromResults(w, doc, req, results);
        return ExplicitDeny;
      }
      if result == Allow {
        hasAllow := true;
      }
    }
    DecisionFromResults(w, doc, req, results);
    if hasAllow {
      return Allow;
    }
    return Deny;
  }

  method CheckOwnership(req: Request) returns (owns: bool)
    ensures owns <==> Owns(req)
  {
    if req.principal.user.None? {
      return false;
    }
    var me := req.principal.user.value.uuid;
    if req.resource.key != "" && req.objectOwner.Some? {
      if req.objectOwner.value == me {
        return true;
      }
    }
    if req.bucketOwner.Some? && req.bucketOwner.value == me {
      return true;
    }
    return false;
  }

  class PolicyEngine {
    const cache: Cache
    var resolver: Option<Metadata>

    constructor (resolver: Option<Metadata>)
      ensures this.resolver == resolver
      ensures fresh(cache) && fresh(cache.bucketPolicies) && cache.Policies() == map[]
    {
      cache := new Cache();
      this.resolver := resolver;
    }

    method ResolveEffectivePolicyNames(md: Metadata, p: Principal) returns (names: seq<string>)
      ensures names == EffectiveNames(md, p)
    {
      if !p.isServiceAccount {
        if p.user.None? {
          return [];
        }
        names := p.user.value.attachedPolicies;
        var groupPolicies := md.GetGroupPoliciesForUser(p.user.value.uuid);
        if groupPolicies.Ok? {
          names := names + groupPolicies.value;
        }
        return;
      }
      if p.parentUserUUID.None? {
        return [];
      }
      var own := md.GetUserPolicyNames(p.parentUserUUID.value);
      if own.Err? {
        return [];
      }
      names := own.value;
      var groupPolicies := md.GetGroupPoliciesForUser(p.parentUserUUID.value);
      if groupPolicies.Ok? {
        names := names + groupPolicies.value;
      }
    }

    method EvaluateNamedPolicies(w: Foreign, req: Request) returns (d: Decision)
      ensures d == if resolver.None? then Deny
                   else FirstDecisive(w, Resolvable(resolver.value, EffectiveNames(resolver.value, req.principal)), req)
    {
      if resolver.None? {
        return Deny;
      }
      var md := resolver.value;
      var names := ResolveEffectivePolicyNames(md, req.principal);
      for i := 0 to |names|
        invariant FirstDecisive(w, Resolvable(md, names), req) == FirstDecisive(w, Resolvable(md, names[i..]), req)
      {
        var doc := md.GetPolicyDocument(names[i]);
        if doc.Err? {
          assert Resolvable(md, names[i..]) == Resolvable(md, names[i + 1..]);
          continue;
        }
        assert Resolvable(md, names[i..])[1..] == Resolvable(md, names[i + 1..]);
        var one := EvaluatePolicy(w, doc.value, req);
        if one != Deny {
          return one;
        }
      }
      return Deny;
    }

    method EvaluateEmbeddedPolicy(w: Foreign, req: Request) returns (d: Decision)
      ensures d == FirstDecisive(w, EmbeddedDocuments(w, req.principal), req)
    {
      if req.principal.embeddedPolicyJSON == "" {
        return Deny;
      }
      var doc := w.parsePolicy(req.principal.embeddedPolicyJSON);
      if doc.None? {
        return Deny;
      }
      d := EvaluatePolicy(w, doc.value, req);
    }

    /** evaluateIAMPolicies: a decision and whether it is final. */
    method EvaluateIAMPolicies(w: Foreign, req: Request) returns (d: Decision, final: bool)
      requires !req.principal.isAnonymous
      ensures IdentityStage(w, resolver, req) == if final then Some(d) else None
      ensures !final ==> d == Deny
    {
      if req.principal.isServiceAccount && req.principal.policyMode == POLICY_MODE_OVERRIDE {
        d := EvaluateEmbeddedPolicy(w, req);
        return d, true;
      }
      d := EvaluateNamedPolicies(w, req);
      return d, d != Deny;
    }

    method CheckBucketPolicy(w: Foreign, req: Request) returns (d: Decision)
      requires req.resource.bucket != ""
      ensures d == FirstDecisive(w, BucketDocuments(cache.Policies(), req.resource), req)
    {
      var policy := cache.GetBucketPolicy(req.resource.bucket);
      if policy.None? {
        return Deny;
      }
      d := EvaluatePolicy(w, policy.value, req);
    }

    /** Evaluate, with the early returns of the source. */
    method Evaluate(w: Foreign, req: Request) returns (d: Decision)
      ensures d == Authorize(w, cache.Policies(), resolver, req)
    {
      FirstOfFour(AdminStage(req), BucketStage(w, cache.Policies(), req),
                  IdentityStage(w, resolver, req), OwnershipStage(req));
      if req.principal.isAdmin {
        return Allow;
      }
      if req.resource.bucket != "" {
        var bucket := CheckBucketPolicy(w, req);
        if bucket != Deny {
          return bucket;
        }
      }
      if !req.principal.isAnonymous {
        var iam, final := EvaluateIAMPolicies(w, req);
        if final {
          return iam;
        }
      }
      if !req.principal.isAnonymous {
        var owns := CheckOwnership(req);
        if owns {
          return Allow;
        }
      }
      return Deny;
    }

    method LoadBucketPolicies(policies: GoMap<string, Option<Document>>)
      modifies cache
      ensures cache.bucketPolicies == policies
      ensures cache.Policies() == Step(old(cache.Policies()), Load(policies.entries))
    {
      cache.LoadBucketPolicies(policies);
    }

    method UpdateBucketPolicy(bucket: string, policy: Document)
      modifies cache.bucketPolicies
      ensures cache.Policies() == old(cache.Policies())[bucket := Some(policy)]
      ensures cache.Policies() == Step(old(cache.Policies()), Update(bucket, policy))
    {
      cache.SetBucketPolicy(bucket, Some(policy));
    }

    method DeleteBucketPolicy(bucket: string)
      modifies cache.bucketPolicies
      ensures cache.Policies() == old(cache.Policies()) - {bucket}
      ensures cache.Policies() == Step(old(cache.Policies()), Delete(bucket))
    {
      cache.SetBucketPolicy(bucket, None);
    }

    method HasBucketPolicy(bucket: string) returns (exists_: bool)
      ensures exists_ <==> bucket in cache.Policies()
    {
      exists_ := cache.HasBucketPolicy(bucket);
    }
  }
}
