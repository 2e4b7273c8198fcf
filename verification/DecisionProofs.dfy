/** How decisions of statements, documents and stages combine. */
module DecisionProofs {
  import opened GoStrings
  import opened PolicyTypes
  import opened Matcher
  import opened PolicyCache
  import opened Resolver
  import opened Engine
  import PatternProofs
  import Validation

  // ---- One document ----

  function Fold(w: Foreign, stmts: seq<Statement>, req: Request): Decision {
    if stmts == [] then Deny else Max(StatementDecision(w, stmts[0], req), Fold(w, stmts[1..], req))
  }

  /** The early-return loop computes the maximum of its statements in Deny < Allow < ExplicitDeny. */
  lemma {:induction false} DocumentIsMaximum(w: Foreign, version: string, stmts: seq<Statement>, req: Request)
    ensures DocumentDecision(w, Document(version, stmts), req) == Fold(w, stmts, req)
  {
    if stmts != [] {
      DocumentIsMaximum(w, version, stmts[1..], req);
      assert forall s :: s in stmts <==> s == stmts[0] || s in stmts[1..];
    }
  }

  /** A concatenation decides the maximum of its parts. */
  lemma DocumentJoin(w: Foreign, xs: seq<Statement>, ys: seq<Statement>, version: string, req: Request)
    ensures DocumentDecision(w, Document(version, xs + ys), req)
         == Max(DocumentDecision(w, Document(version, xs), req), DocumentDecision(w, Document(version, ys), req))
  {
  }

  /** Order and repetition of statements do not matter, nor do version and document id. */
  lemma StatementOrderIrrelevant(w: Foreign, a: Document, b: Document, req: Request)
    requires forall s :: s in a.statements <==> s in b.statements
    ensures DocumentDecision(w, a, req) == DocumentDecision(w, b, req)
  {
  }

  // ---- Lists of documents ----

  lemma {:induction false} FirstDecisiveConcat(w: Foreign, xs: seq<Document>, ys: seq<Document>, req: Request)
    ensures var d := FirstDecisive(w, xs, req);
            FirstDecisive(w, xs + ys, req) == if d != Deny then d else FirstDecisive(w, ys, req)
  {
    if xs == [] {
      assert xs + ys == ys;
    } else {
      assert (xs + ys)[1..] == xs[1..] + ys;
      FirstDecisiveConcat(w, xs[1..], ys, req);
    }
  }

  /** A list is decisive iff one of its documents is, in whatever order they come. */
  lemma {:induction false} DecisiveIffSome(w: Foreign, docs: seq<Document>, req: Request)
    ensures FirstDecisive(w, docs, req) != Deny <==> exists doc | doc in docs :: DocumentDecision(w, doc, req) != Deny
  {
    if docs != [] {
      DecisiveIffSome(w, docs[1..], req);
      assert forall doc :: doc in docs <==> doc == docs[0] || doc in docs[1..];
    }
  }

  lemma {:induction false} ResolvableConcat(md: Metadata, xs: seq<string>, ys: seq<string>)
    ensures Resolvable(md, xs + ys) == Resolvable(md, xs) + Resolvable(md, ys)
  {
    if xs == [] {
      assert xs + ys == ys;
    } else {
      assert (xs + ys)[1..] == xs[1..] + ys;
      ResolvableConcat(md, xs[1..], ys);
    }
  }

  /** Names compose by first decision, and a name that does not resolve may be deleted. */
  lemma NamedPoliciesCompose(w: Foreign, md: Metadata, xs: seq<string>, ys: seq<string>, missing: string, req: Request)
    ensures var d := FirstDecisive(w, Resolvable(md, xs), req);
            FirstDecisive(w, Resolvable(md, xs + ys), req)
              == if d != Deny then d else FirstDecisive(w, Resolvable(md, ys), req)
    ensures missing !in md.policies ==>
            FirstDecisive(w, Resolvable(md, xs + [missing] + ys), req) == FirstDecisive(w, Resolvable(md, xs + ys), req)
  {
    ResolvableConcat(md, xs, ys);
    FirstDecisiveConcat(w, Resolvable(md, xs), Resolvable(md, ys), req);
    if missing !in md.policies {
      ResolvableConcat(md, xs + [missing], ys);
      ResolvableConcat(md, xs, [missing]);
      assert Resolvable(md, [missing]) == [];
      assert Resolvable(md, xs) + [] == Resolvable(md, xs);
    }
  }

  lemma {:induction false} ResolvableMembers(md: Metadata, names: seq<string>, doc: Document)
    ensures doc in Resolvable(md, names) <==> exists n | n in names :: n in md.policies && md.policies[n] == doc
  {
    if names != [] {
      ResolvableMembers(md, names[1..], doc);
      assert forall n :: n in names <==> n == names[0] || n in names[1..];
    }
  }

  /** Reordering names may pick another decisive document, but cannot gain or lose a decision. */
  lemma NameOrderKeepsDecisiveness(w: Foreign, md: Metadata, xs: seq<string>, ys: seq<string>, req: Request)
    requires forall n :: n in xs <==> n in ys
    ensures FirstDecisive(w, Resolvable(md, xs), req) == Deny <==> FirstDecisive(w, Resolvable(md, ys), req) == Deny
  {
    DecisiveIffSome(w, Resolvable(md, xs), req);
    DecisiveIffSome(w, Resolvable(md, ys), req);
    forall doc ensures doc in Resolvable(md, xs) <==> doc in Resolvable(md, ys) {
      ResolvableMembers(md, xs, doc);
      ResolvableMembers(md, ys, doc);
    }
  }

  // ---- First decision against deny-overrides ----

  function Verdicts(w: Foreign, docs: seq<Document>, req: Request): seq<Decision> {
    if docs == [] then [] else [DocumentDecision(w, docs[0], req)] + Verdicts(w, docs[1..], req)
  }

  /** None of the first `n` verdicts is a decision. */
  predicate NoneBefore(verdicts: seq<Decision>, n: nat)
    requires n <= |verdicts|
  {
    forall k | 0 <= k < n :: verdicts[k] == Deny
  }

  /** The first decision among the verdicts is `d`. */
  predicate FirstIs(verdicts: seq<Decision>, d: Decision) {
    exists i | 0 <= i < |verdicts| :: verdicts[i] == d && NoneBefore(verdicts, i)
  }

  /** The first document to decide allows, and a later one denies. */
  predicate Shadowed(verdicts: seq<Decision>) {
    exists i, j | 0 <= i < j < |verdicts| ::
      verdicts[i] == Allow && verdicts[j] == ExplicitDeny && NoneBefore(verdicts, i)
  }

  lemma {:induction false} FirstDecisiveIsFirst(w: Foreign, docs: seq<Document>, req: Request)
    ensures var verdicts := Verdicts(w, docs, req);
            && (forall d | d != Deny :: FirstDecisive(w, docs, req) == d <==> FirstIs(verdicts, d))
            && (FirstDecisive(w, docs, req) == Deny <==> NoneBefore(verdicts, |verdicts|))
  {
    if docs != [] {
      FirstDecisiveIsFirst(w, docs[1..], req);
      FirstIsCons(DocumentDecision(w, docs[0], req), Verdicts(w, docs[1..], req));
    }
  }

  lemma FirstIsCons(v: Decision, rest: seq<Decision>)
    ensures forall d | d != Deny :: FirstIs([v] + rest, d) <==> if v == Deny then FirstIs(rest, d) else v == d
    ensures NoneBefore([v] + rest, 1 + |rest|) <==> v == Deny && NoneBefore(rest, |rest|)
  {
    var all := [v] + rest;
    assert all[0] == v;
    assert forall i | 0 <= i < |rest| :: rest[i] == all[i + 1];
    assert forall i | 0 < i < |all| :: all[i] == rest[i - 1];
    forall d | d != Deny ensures FirstIs(all, d) <==> if v == Deny then FirstIs(rest, d) else v == d {
      if v == Deny {
        FirstIsAfterDeny(rest, d);
      } else {
        assert all[0] == v && NoneBefore(all, 0);
      }
    }
  }

  lemma FirstIsAfterDeny(rest: seq<Decision>, d: Decision)
    requires d != Deny
    ensures FirstIs([Deny] + rest, d) <==> FirstIs(rest, d)
  {
    if i :| 0 <= i < |rest| && rest[i] == d && NoneBefore(rest, i) {
      FirstShifts(rest, d, i);
    }
    if i :| 0 <= i < |[Deny] + rest| && ([Deny] + rest)[i] == d && NoneBefore([Deny] + rest, i) {
      FirstShifts(rest, d, i - 1);
    }
  }

  lemma FirstShifts(rest: seq<Decision>, d: Decision, i: nat)
    requires i < |rest|
    ensures ([Deny] + rest)[i + 1] == rest[i]
    ensures NoneBefore([Deny] + rest, i + 1) <==> NoneBefore(rest, i)
  {
    var all := [Deny] + rest;
    assert forall k | 0 <= k < i :: rest[k] == all[k + 1];
    assert forall k | 0 < k < i + 1 :: all[k] == rest[k - 1];
  }

  function Merge(docs: seq<Document>): seq<Statement> {
    if docs == [] then [] else docs[0].statements + Merge(docs[1..])
  }

  /** All statements in one document: deny-overrides across documents. */
  function MergedDecision(w: Foreign, docs: seq<Document>, req: Request): Decision {
    DocumentDecision(w, Document("", Merge(docs)), req)
  }

  /** A merged document denies iff some part denies, and decides nothing iff no part decides. */
  lemma {:induction false} MergedMeaning(w: Foreign, docs: seq<Document>, req: Request)
    ensures var verdicts := Verdicts(w, docs, req);
            && (MergedDecision(w, docs, req) == ExplicitDeny <==> ExplicitDeny in verdicts)
            && (MergedDecision(w, docs, req) == Deny <==> NoneBefore(verdicts, |verdicts|))
  {
    if docs != [] {
      var d, rest := DocumentDecision(w, docs[0], req), docs[1..];
      MergedMeaning(w, rest, req);
      FirstIsCons(d, Verdicts(w, rest, req));
      DocumentJoin(w, docs[0].statements, Merge(rest), "", req);
      StatementOrderIrrelevant(w, docs[0], Document("", docs[0].statements), req);
      assert MergedDecision(w, docs, req) == Max(d, MergedDecision(w, rest, req));
    }
  }

  /** First decision and deny-overrides agree exactly on the lists that are not shadowed; on a
      shadowed list the first one allows what the second one denies. */
  lemma FirstDecisiveVersusMerged(w: Foreign, docs: seq<Document>, req: Request)
    ensures FirstDecisive(w, docs, req) == MergedDecision(w, docs, req) <==> !Shadowed(Verdicts(w, docs, req))
    ensures Shadowed(Verdicts(w, docs, req)) ==>
            FirstDecisive(w, docs, req) == Allow && MergedDecision(w, docs, req) == ExplicitDeny
  {
    FirstDecisiveIsFirst(w, docs, req);
    MergedMeaning(w, docs, req);
    ShadowedMeaning(Verdicts(w, docs, req));
  }

  lemma ShadowedMeaning(verdicts: seq<Decision>)
    ensures Shadowed(verdicts) <==> FirstIs(verdicts, Allow) && ExplicitDeny in verdicts
    ensures FirstIs(verdicts, ExplicitDeny) ==> ExplicitDeny in verdicts && !FirstIs(verdicts, Allow)
    ensures FirstIs(verdicts, Allow) ==> !NoneBefore(verdicts, |verdicts|)
  {
  }

  predicate HasDenying(doc: Document) {
    exists s | s in doc.statements :: s.effect == "Deny"
  }

  predicate HasAllowing(doc: Document) {
    exists s | s in doc.statements :: s.effect != "Deny"
  }

  /** No document with an allowing statement comes before one with a denying statement. A document may
      hold both kinds if it is the only such place. */
  predicate DeniesFirst(docs: seq<Document>) {
    forall i, j | 0 <= i < j < |docs| :: !(HasAllowing(docs[i]) && HasDenying(docs[j]))
  }

  lemma DeniesFirstNotShadowed(w: Foreign, docs: seq<Document>, req: Request)
    requires DeniesFirst(docs)
    ensures !Shadowed(Verdicts(w, docs, req))
  {
    VerdictsAt(w, docs, req);
    forall i | 0 <= i < |docs|
      ensures DocumentDecision(w, docs[i], req) == Allow ==> HasAllowing(docs[i])
      ensures DocumentDecision(w, docs[i], req) == ExplicitDeny ==> HasDenying(docs[i])
    {
    }
  }

  lemma {:induction false} VerdictsAt(w: Foreign, docs: seq<Document>, req: Request)
    ensures var verdicts := Verdicts(w, docs, req);
            |verdicts| == |docs| && forall i | 0 <= i < |docs| :: verdicts[i] == DocumentDecision(w, docs[i], req)
  {
    if docs != [] {
      VerdictsAt(w, docs[1..], req);
    }
  }

  // ---- The whole evaluation ----

  /** Every document consulted for a request, in order. */
  function Consulted(w: Foreign, policies: BucketPolicies, resolver: Option<Metadata>, req: Request): seq<Document> {
    BucketDocuments(policies, req.resource) + IdentityDocuments(w, resolver, req.principal)
  }

  /** Ownership is asked of signed-in principals that are not override-mode service accounts. */
  predicate OwnershipGrants(req: Request) {
    !req.principal.isAnonymous && !req.principal.IsOverride() && Owns(req)
  }

  /** What a document-level verdict becomes once no document is left. */
  function Finish(verdict: Decision, req: Request): Decision {
    if verdict != Deny then verdict else if OwnershipGrants(req) then Allow else Deny
  }

  lemma AuthorizeIsFirstDecisive(w: Foreign, policies: BucketPolicies, resolver: Option<Metadata>, req: Request)
    requires !req.principal.isAdmin
    ensures Authorize(w, policies, resolver, req)
         == Finish(FirstDecisive(w, Consulted(w, policies, resolver, req), req), req)
  {
    FirstOfFour(AdminStage(req), BucketStage(w, policies, req), IdentityStage(w, resolver, req), OwnershipStage(req));
    FirstDecisiveConcat(w, BucketDocuments(policies, req.resource), IdentityDocuments(w, resolver, req.principal), req);
  }

  /** The exact meaning of each answer, for every request. */
  lemma DecisionMeaning(w: Foreign, policies: BucketPolicies, resolver: Option<Metadata>, req: Request)
    ensures var d := Authorize(w, policies, resolver, req);
            var verdicts := Verdicts(w, Consulted(w, policies, resolver, req), req);
            && (d == ExplicitDeny <==> !req.principal.isAdmin && FirstIs(verdicts, ExplicitDeny))
            && (d == Allow <==> || req.principal.isAdmin
                                || FirstIs(verdicts, Allow)
                                || (NoneBefore(verdicts, |verdicts|) && OwnershipGrants(req)))
  {
    FirstOfFour(AdminStage(req), BucketStage(w, policies, req), IdentityStage(w, resolver, req), OwnershipStage(req));
    if !req.principal.isAdmin {
      AuthorizeIsFirstDecisive(w, policies, resolver, req);
      FirstDecisiveIsFirst(w, Consulted(w, policies, resolver, req), req);
    }
  }

  /** The rule of the design notes and of the engine's own comments: any explicit deny in any policy fails
      the request, then any allow grants it, then ownership. */
  function DenyOverrides(w: Foreign, policies: BucketPolicies, resolver: Option<Metadata>, req: Request): Decision {
    if req.principal.isAdmin then Allow
    else Finish(MergedDecision(w, Consulted(w, policies, resolver, req), req), req)
  }

  /** The engine meets that rule exactly on the requests whose consulted documents are not shadowed, and
      where it departs it allows. */
  lemma DenyOverridesExactly(w: Foreign, policies: BucketPolicies, resolver: Option<Metadata>, req: Request)
    ensures Authorize(w, policies, resolver, req) == DenyOverrides(w, policies, resolver, req)
       <==> req.principal.isAdmin || !Shadowed(Verdicts(w, Consulted(w, policies, resolver, req), req))
    ensures Authorize(w, policies, resolver, req) != DenyOverrides(w, policies, resolver, req)
        ==> Authorize(w, policies, resolver, req) == Allow
  {
    FirstOfFour(AdminStage(req), BucketStage(w, policies, req), IdentityStage(w, resolver, req), OwnershipStage(req));
    if !req.principal.isAdmin {
      AuthorizeIsFirstDecisive(w, policies, resolver, req);
      FirstDecisiveVersusMerged(w, Consulted(w, policies, resolver, req), req);
    }
  }

  /** When denying documents are consulted first, explicit deny always wins, on every request. */
  lemma DenyFirstIsSafe(w: Foreign, policies: BucketPolicies, resolver: Option<Metadata>, req: Request)
    requires DeniesFirst(Consulted(w, policies, resolver, req))
    ensures Authorize(w, policies, resolver, req) == DenyOverrides(w, policies, resolver, req)
  {
    DeniesFirstNotShadowed(w, Consulted(w, policies, resolver, req), req);
    DenyOverridesExactly(w, policies, resolver, req);
  }

  lemma DeniesFirstCons(first: Document, rest: seq<Document>)
    ensures DeniesFirst([first] + rest) <==>
            DeniesFirst(rest) && (!HasAllowing(first) || forall i | 0 <= i < |rest| :: !HasDenying(rest[i]))
  {
    var docs := [first] + rest;
    assert forall i | 0 <= i < |rest| :: rest[i] == docs[i + 1];
    assert forall i | 0 < i < |docs| :: docs[i] == rest[i - 1];
    assert docs[0] == first;
  }

  /** What that asks of an operator: the attached documents in that order, and, since the bucket's document
      comes before all of them, no denying document attached behind a bucket document that can allow. */
  lemma DeniesFirstConsulted(w: Foreign, policies: BucketPolicies, resolver: Option<Metadata>, req: Request)
    ensures var bucket := BucketDocuments(policies, req.resource);
            var attached := IdentityDocuments(w, resolver, req.principal);
            DeniesFirst(Consulted(w, policies, resolver, req)) <==>
            DeniesFirst(attached)
            && (bucket == [] || !HasAllowing(bucket[0])
                || forall i | 0 <= i < |attached| :: !HasDenying(attached[i]))
  {
    var bucket := BucketDocuments(policies, req.resource);
    var attached := IdentityDocuments(w, resolver, req.principal);
    if bucket == [] {
      assert bucket + attached == attached;
    } else {
      assert bucket == [bucket[0]];
      DeniesFirstCons(bucket[0], attached);
    }
  }

  // ---- Owners ----

  /** The evaluation order as documented: admin, owner, explicit deny, explicit allow, default deny. */
  function OwnerFirst(w: Foreign, policies: BucketPolicies, resolver: Option<Metadata>, req: Request): Decision {
    if req.principal.isAdmin then Allow
    else if !req.principal.isAnonymous && Owns(req) then Allow
    else MergedDecision(w, Consulted(w, policies, resolver, req), req)
  }

  /** A signed-in owner is allowed unless the first deciding document denies; an override-mode service
      account gets nothing from ownership. */
  lemma OwnerMeaning(w: Foreign, policies: BucketPolicies, resolver: Option<Metadata>, req: Request)
    requires !req.principal.isAdmin && !req.principal.isAnonymous && Owns(req)
    ensures var verdicts := Verdicts(w, Consulted(w, policies, resolver, req), req);
            Authorize(w, policies, resolver, req) == Allow <==>
            if req.principal.IsOverride() then FirstIs(verdicts, Allow) else !FirstIs(verdicts, ExplicitDeny)
  {
    AuthorizeIsFirstDecisive(w, policies, resolver, req);
    FirstDecisiveIsFirst(w, Consulted(w, policies, resolver, req), req);
  }

  /** The engine follows the documented order exactly when: for an owner, no document refuses first (and an
      override-mode one is allowed first); for anyone else, the documents are not shadowed. */
  lemma OwnerFirstExactly(w: Foreign, policies: BucketPolicies, resolver: Option<Metadata>, req: Request)
    ensures var verdicts := Verdicts(w, Consulted(w, policies, resolver, req), req);
            Authorize(w, policies, resolver, req) == OwnerFirst(w, policies, resolver, req) <==>
            || req.principal.isAdmin
            || (if !req.principal.isAnonymous && Owns(req) then
                  if req.principal.IsOverride() then FirstIs(verdicts, Allow) else !FirstIs(verdicts, ExplicitDeny)
                else !Shadowed(verdicts))
  {
    DenyOverridesExactly(w, policies, resolver, req);
    if !req.principal.isAdmin && !req.principal.isAnonymous && Owns(req) {
      OwnerMeaning(w, policies, resolver, req);
    }
  }

  // ---- Witnesses ----

  function Listed(strs: seq<string>): Value {
    AnyArr(seq(|strs|, i requires 0 <= i < |strs| => Str(strs[i])))
  }

  function Rule(effect: string, principal: Value, actions: seq<string>, resources: seq<string>): Statement {
    Statement("", effect, principal, Nil, Listed(actions), Nil, Listed(resources), Nil, map[])
  }

  lemma ListedHas(strs: seq<string>, s: string)
    ensures s in strs <==> Str(s) in Listed(strs).items
  {
    var items := Listed(strs).items;
    assert forall i | 0 <= i < |strs| :: items[i] == Str(strs[i]);
  }

  lemma ListedAction(actions: seq<string>, action: string)
    requires action in actions
    ensures MatchAction(Listed(actions), action)
  {
    ListedHas(actions, action);
    assert MatchPattern(Str(action).s, action);
  }

  lemma ListedResource(w: Foreign, resources: seq<string>, p: string, r: Resource, ctx: Option<VarContext>)
    requires p in resources && MatchPattern(p, r.ARN()) && forall q | q in resources :: '$' !in q
    ensures MatchResourceWithVariables(w, Listed(resources), r, ctx)
  {
    var items := Listed(resources).items;
    assert forall i | 0 <= i < |resources| :: items[i] == Str(resources[i]);
    assert Validation.Normalized(Listed(resources)).value == resources;
    Validation.ArrayFormsAlike(w, items, r, ctx);
    PatternProofs.PlainPatterns(w, resources, r, ctx);
  }

  /** A rule of plain patterns for everyone, or without a principal, applies where one of its patterns and
      one of its actions does. */
  lemma RuleApplies(w: Foreign, effect: string, principal: Value, actions: seq<string>, resources: seq<string>,
                    p: string, req: Request)
    requires (principal == Nil || principal == Str("*")) && req.action in actions
    requires p in resources && MatchPattern(p, req.resource.ARN()) && forall q | q in resources :: '$' !in q
    ensures Applies(w, Rule(effect, principal, actions, resources), req)
  {
    ListedAction(actions, req.action);
    ListedResource(w, resources, p, req.resource, req.varContext);
  }

  const VERSION := "2012-10-17"
  const GET := "s3:GetObject"
  const LIST := "s3:ListBucket"

  function BucketArn(b: string): string {
    PatternProofs.ARN_ROOT + b
  }

  function ObjectsArn(b: string): string {
    BucketArn(b) + "/" + "*"
  }

  function DenyRule(b: string): Statement {
    Rule("Deny", Nil, [GET, LIST], [BucketArn(b), ObjectsArn(b)])
  }

  function PublicRule(b: string): Statement {
    Rule("Allow", Str("*"), [GET], [ObjectsArn(b)])
  }

  /** The user policy of example 12 in the quick reference, where the bucket is `sensitive`. */
  function AllButBucket(b: string): Document {
    Document(VERSION, [Rule("Allow", Nil, [GET, LIST], [PatternProofs.ARN_ROOT + "*"]), DenyRule(b)])
  }

  /** A public bucket policy in the form of its example 11. */
  function PublicBucket(b: string): Document {
    Document(VERSION, [PublicRule(b)])
  }

  lemma DeniedBy(w: Foreign, doc: Document, s: Statement, req: Request)
    requires s in doc.statements && s.effect == "Deny" && Applies(w, s, req)
    ensures DocumentDecision(w, doc, req) == ExplicitDeny
  {
    assert StatementDecision(w, s, req) == ExplicitDeny;
  }

  lemma AllowedBySole(w: Foreign, doc: Document, s: Statement, req: Request)
    requires doc.statements == [s] && s.effect != "Deny" && Applies(w, s, req)
    ensures DocumentDecision(w, doc, req) == Allow
  {
    assert s in doc.statements && StatementDecision(w, s, req) == Allow;
  }

  predicate GetsObject(b: string, req: Request) {
    && PatternProofs.BucketName(b) && '$' !in b
    && req.action == GET && req.resource.bucket == b && req.resource.key != ""
  }

  lemma ObjectsMatched(b: string, req: Request)
    requires GetsObject(b, req)
    ensures MatchPattern(ObjectsArn(b), req.resource.ARN())
    ensures '$' !in BucketArn(b) && '$' !in ObjectsArn(b)
  {
    assert ObjectsArn(b) == PatternProofs.ARN_ROOT + b + "/" + "" + "*";
    PatternProofs.BucketScope(b, "", req.resource);
  }

  lemma PublicBucketAllows(w: Foreign, b: string, req: Request)
    requires GetsObject(b, req)
    ensures DocumentDecision(w, PublicBucket(b), req) == Allow
  {
    var actions, resources := [GET], [ObjectsArn(b)];
    ObjectsMatched(b, req);
    assert actions[0] in actions && resources[0] in resources;
    RuleApplies(w, "Allow", Str("*"), actions, resources, resources[0], req);
    AllowedBySole(w, PublicBucket(b), Rule("Allow", Str("*"), actions, resources), req);
  }

  lemma AllButBucketDenies(w: Foreign, b: string, req: Request)
    requires GetsObject(b, req)
    ensures DocumentDecision(w, AllButBucket(b), req) == ExplicitDeny
  {
    var actions, resources := [GET, LIST], [BucketArn(b), ObjectsArn(b)];
    ObjectsMatched(b, req);
    assert actions[0] in actions && resources[1] in resources;
    RuleApplies(w, "Deny", Nil, actions, resources, resources[1], req);
    assert AllButBucket(b).statements[1] == Rule("Deny", Nil, actions, resources);
    DeniedBy(w, AllButBucket(b), Rule("Deny", Nil, actions, resources), req);
  }

  /** An allowing bucket document in front of a denying attached one: the engine allows, the rule denies. */
  lemma AllowHidesDeny(w: Foreign, policies: BucketPolicies, resolver: Option<Metadata>, req: Request,
                       open: Document, deny: Document)
    requires !req.principal.isAdmin
    requires Consulted(w, policies, resolver, req) == [open, deny]
    requires DocumentDecision(w, open, req) == Allow && DocumentDecision(w, deny, req) == ExplicitDeny
    ensures Authorize(w, policies, resolver, req) == Allow
    ensures DenyOverrides(w, policies, resolver, req) == ExplicitDeny
  {
    var docs := [open, deny];
    AuthorizeIsFirstDecisive(w, policies, resolver, req);
    MergedMeaning(w, docs, req);
    VerdictsAt(w, docs, req);
    assert Verdicts(w, docs, req)[1] == ExplicitDeny;
  }

  lemma SoleDenies(w: Foreign, policies: BucketPolicies, resolver: Option<Metadata>, req: Request, deny: Document)
    requires !req.principal.isAdmin
    requires Consulted(w, policies, resolver, req) == [deny] && DocumentDecision(w, deny, req) == ExplicitDeny
    ensures Authorize(w, policies, resolver, req) == ExplicitDeny
  {
    AuthorizeIsFirstDecisive(w, policies, resolver, req);
  }

  /** A signed-in user whose only resolvable policy is that of example 12, asking for an object of the
      bucket it denies. */
  predicate IsDavid(md: Metadata, b: string, req: Request) {
    && !req.principal.isAdmin && !req.principal.isAnonymous && !req.principal.IsOverride()
    && Resolvable(md, EffectiveNames(md, req.principal)) == [AllButBucket(b)]
    && GetsObject(b, req)
  }

  lemma SoleResolvable(md: Metadata, name: string)
    requires name in md.policies
    ensures Resolvable(md, [name]) == [md.policies[name]]
  {
    assert [name][1..] == [];
  }

  lemma DavidFor(b: string)
    requires PatternProofs.BucketName(b) && '$' !in b
    ensures exists md: Metadata, req: Request :: IsDavid(md, b, req)
  {
    var md := Metadata(map["p" := AllButBucket(b)], map[], map[], {}, map[]);
    var p := Principal(Some(User(1, "david", "david", ["p"])), false, false, false, None, "", "");
    var req := Request(p, GET, Resource(b, "key"), None, None, None, None);
    SoleResolvable(md, "p");
    assert EffectiveNames(md, p) == ["p"] + [] == ["p"];
    assert IsDavid(md, b, req);
  }

  lemma DavidExists()
    ensures exists md: Metadata, req: Request :: IsDavid(md, "sensitive", req)
  {
    DavidFor("sensitive");
  }

  /** Example 12: the documentation says this user stays denied even if the bucket is public. For every
      such bucket, user, object and request data, the public bucket policy allows it instead. */
  lemma ExplicitDenyCanLose(w: Foreign, policies: BucketPolicies, md: Metadata, b: string, req: Request)
    requires IsDavid(md, b, req) && Lookup(policies, b) == Some(PublicBucket(b))
    ensures Authorize(w, policies, Some(md), req) == Allow
    ensures DenyOverrides(w, policies, Some(md), req) == ExplicitDeny
  {
    PublicBucketAllows(w, b, req);
    AllButBucketDenies(w, b, req);
    AllowHidesDeny(w, policies, Some(md), req, PublicBucket(b), AllButBucket(b));
  }

  /** Without a bucket policy the explicit deny stands. */
  lemma ExplicitDenyAloneStands(w: Foreign, policies: BucketPolicies, md: Metadata, b: string, req: Request)
    requires IsDavid(md, b, req) && Lookup(policies, b) == None
    ensures Authorize(w, policies, Some(md), req) == ExplicitDeny
  {
    AllButBucketDenies(w, b, req);
    SoleDenies(w, policies, Some(md), req, AllButBucket(b));
  }

  /** A bucket document that denies one folder to everyone, for one action. */
  function FolderDenied(b: string, folder: string, action: string): Document {
    Document(VERSION, [Rule("Deny", Str("*"), [action], [PatternProofs.ARN_ROOT + b + "/" + folder + "*"])])
  }

  lemma FolderDeniedDenies(w: Foreign, b: string, folder: string, req: Request)
    requires PatternProofs.BucketName(b) && '$' !in b && '$' !in folder
    requires req.resource.bucket == b && req.resource.key != "" && HasPrefix(req.resource.key, folder)
    ensures DocumentDecision(w, FolderDenied(b, folder, req.action), req) == ExplicitDeny
  {
    var pattern := PatternProofs.ARN_ROOT + b + "/" + folder + "*";
    var patterns, actions := [pattern], [req.action];
    PatternProofs.BucketScope(b, folder, req.resource);
    assert patterns[0] in patterns && actions[0] in actions;
    RuleApplies(w, "Deny", Str("*"), actions, patterns, pattern, req);
    var rule := Rule("Deny", Str("*"), actions, patterns);
    assert FolderDenied(b, folder, req.action).statements == [rule];
    DeniedBy(w, FolderDenied(b, folder, req.action), rule, req);
  }

  lemma DeniedByBucket(w: Foreign, policies: BucketPolicies, resolver: Option<Metadata>, req: Request, doc: Document)
    requires !req.principal.isAdmin && BucketDocuments(policies, req.resource) == [doc]
    requires DocumentDecision(w, doc, req) == ExplicitDeny
    ensures Authorize(w, policies, resolver, req) == ExplicitDeny
  {
    AuthorizeIsFirstDecisive(w, policies, resolver, req);
    assert Consulted(w, policies, resolver, req)[0] == doc;
  }

  /** An owner who is refused: a bucket policy denying a folder to everyone denies it to the owner of the
      bucket and of the object too, where the documented order lets the owner in. */
  lemma OwnerCanBeRefused(w: Foreign, policies: BucketPolicies, b: string, folder: string,
                          resolver: Option<Metadata>, req: Request)
    requires PatternProofs.BucketName(b) && '$' !in b && '$' !in folder
    requires !req.principal.isAdmin && !req.principal.isAnonymous && Owns(req)
    requires req.resource.bucket == b && req.resource.key != "" && HasPrefix(req.resource.key, folder)
    requires Lookup(policies, b) == Some(FolderDenied(b, folder, req.action))
    ensures Authorize(w, policies, resolver, req) == ExplicitDeny
    ensures OwnerFirst(w, policies, resolver, req) == Allow
  {
    FolderDeniedDenies(w, b, folder, req);
    DeniedByBucket(w, policies, resolver, req, FolderDenied(b, folder, req.action));
  }

  // ---- Editing one named policy ----

  function WithStatement(md: Metadata, name: string, stmt: Statement): Metadata
    requires name in md.policies
  {
    var doc := md.policies[name];
    md.(policies := md.policies[name := doc.(statements := doc.statements + [stmt])])
  }

  /** Adding an allowing statement to any named policy never takes access away, and adding a denying
      one never gives access, whatever the order the policies are attached in. */
  lemma EditsAreMonotone(w: Foreign, policies: BucketPolicies, md: Metadata, name: string, stmt: Statement,
                         req: Request)
    requires name in md.policies
    ensures var before := Authorize(w, policies, Some(md), req);
            var after := Authorize(w, policies, Some(WithStatement(md, name, stmt)), req);
            && (stmt.effect != "Deny" && before == Allow ==> after == Allow)
            && (stmt.effect == "Deny" && after == Allow ==> before == Allow)
  {
    var md' := WithStatement(md, name, stmt);
    var names := EffectiveNames(md, req.principal);
    SameNames(md, md', req.principal);
    EditKeepsOrder(w, md, name, stmt, names, req);
    FirstOfFour(AdminStage(req), BucketStage(w, policies, req), IdentityStage(w, Some(md), req), OwnershipStage(req));
    FirstOfFour(AdminStage(req), BucketStage(w, policies, req), IdentityStage(w, Some(md'), req), OwnershipStage(req));
  }

  /** Attachment and group data alone determine the effective names. */
  lemma SameNames(a: Metadata, b: Metadata, p: Principal)
    requires a.users == b.users && a.groupIndex == b.groupIndex && a.corrupt == b.corrupt && a.groups == b.groups
    ensures EffectiveNames(a, p) == EffectiveNames(b, p)
  {
    forall names ensures a.PoliciesOf(names) == b.PoliciesOf(names) {
      SamePoliciesOf(a, b, names);
    }
  }

  lemma {:induction false} SamePoliciesOf(a: Metadata, b: Metadata, names: seq<string>)
    requires a.groups == b.groups
    ensures a.PoliciesOf(names) == b.PoliciesOf(names)
  {
    if names != [] {
      SamePoliciesOf(a, b, names[1..]);
    }
  }

  lemma {:induction false} EditKeepsOrder(w: Foreign, md: Metadata, name: string, stmt: Statement, names: seq<string>,
                                          req: Request)
    requires name in md.policies
    ensures var before := FirstDecisive(w, Resolvable(md, names), req);
            var after := FirstDecisive(w, Resolvable(WithStatement(md, name, stmt), names), req);
            if stmt.effect != "Deny" then after == before || (before == Deny && after == Allow)
                                           || (before == ExplicitDeny && after == Allow)
            else after == before || after == ExplicitDeny
  {
    if names != [] {
      EditKeepsOrder(w, md, name, stmt, names[1..], req);
      var md' := WithStatement(md, name, stmt);
      FirstNameDecides(w, md, names, req);
      FirstNameDecides(w, md', names, req);
      if names[0] == name {
        EditedDocument(w, md.policies[name], stmt, req);
      }
    }
  }

  lemma FirstNameDecides(w: Foreign, md: Metadata, names: seq<string>, req: Request)
    requires names != []
    ensures var rest := FirstDecisive(w, Resolvable(md, names[1..]), req);
            FirstDecisive(w, Resolvable(md, names), req) ==
            if names[0] !in md.policies then rest
            else var d := DocumentDecision(w, md.policies[names[0]], req); if d != Deny then d else rest
  {
    var rest := Resolvable(md, names[1..]);
    if names[0] in md.policies {
      assert ([md.policies[names[0]]] + rest)[1..] == rest;
    } else {
      assert [] + rest == rest;
    }
  }

  /** A statement at the end of a document. */
  lemma EditedDocument(w: Foreign, doc: Document, stmt: Statement, req: Request)
    ensures DocumentDecision(w, doc.(statements := doc.statements + [stmt]), req)
         == Max(DocumentDecision(w, doc, req), StatementDecision(w, stmt, req))
  {
    DocumentJoin(w, doc.statements, [stmt], doc.version, req);
    DocumentIsMaximum(w, doc.version, [stmt], req);
    assert [stmt][1..] == [];
  }
}
