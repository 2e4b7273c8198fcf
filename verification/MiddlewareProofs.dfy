/** What the middleware admits, told from the request and the configuration alone. */
module MiddlewareProofs {
  import opened GoStrings
  import opened PolicyTypes
  import opened Matcher
  import opened PolicyCache
  import opened Resolver
  import opened Engine
  import opened DecisionProofs
  import opened PrincipalProofs
  import opened Middleware
  import PatternProofs

  /** The user's access key is one of the root keys; an unset alternative is none. */
  predicate HoldsRootKey(cfg: Config, r: HttpRequest) {
    && r.user.Some?
    && (r.user.value.accessKey == cfg.rootKey
        || (cfg.altRootKey != "" && r.user.value.accessKey == cfg.altRootKey))
  }

  predicate IsCopy(r: HttpRequest) {
    r.routeAction == "s3:CopyObject" || r.routeAction == "s3:UploadPartCopy"
  }

  predicate OverrideAccount(r: HttpRequest) {
    r.serviceAccount.Some? && r.serviceAccount.value.policyMode == "override"
  }

  predicate Anonymous(r: HttpRequest) {
    r.markedAnonymous || r.user.None?
  }

  /** A root key passes whatever the policies say, and so does every route outside S3. */
  lemma RootIsServed(w: Foreign, policies: BucketPolicies, resolver: Option<Metadata>, cfg: Config, r: HttpRequest)
    requires HoldsRootKey(cfg, r) || !HasPrefix(r.routeAction, "s3:")
    ensures Admitted(w, policies, resolver, cfg, r)
  {
  }

  /** The request as a plain one, for one action on one resource. */
  function As(r: HttpRequest, action: string, at: Resource): HttpRequest {
    r.(routeAction := action, bucket := at.bucket, key := at.key)
  }

  lemma PlainNeeds(r: HttpRequest, permission: string)
    requires GetRequiredPermissions(r.routeAction) == [permission] && !IsMultiResourceAction(r.routeAction)
    ensures Needs(r) == [(permission, Resource(r.bucket, r.key))]
  {
  }

  lemma CopyNeeds(r: HttpRequest)
    requires IsCopy(r)
    ensures Needs(r) == [("s3:GetObject", ParseCopySource(r.copySource)), ("s3:PutObject", Resource(r.bucket, r.key))]
    ensures HasPrefix(r.routeAction, "s3:") && IsMultiResourceAction(r.routeAction)
  {
  }

  lemma NotRoot(cfg: Config, r: HttpRequest)
    ensures cfg.IsAdmin(r.user) <==> HoldsRootKey(cfg, r)
  {
  }

  lemma PlainAdmission(w: Foreign, policies: BucketPolicies, resolver: Option<Metadata>, cfg: Config, r: HttpRequest,
                       permission: string)
    requires HasPrefix(r.routeAction, "s3:") && !HoldsRootKey(cfg, r)
    requires GetRequiredPermissions(r.routeAction) == [permission] && !IsMultiResourceAction(r.routeAction)
    ensures Admitted(w, policies, resolver, cfg, r) <==>
            Answer(w, policies, resolver, cfg, r, (permission, Resource(r.bucket, r.key))) == Allow
  {
    NotRoot(cfg, r);
    PlainNeeds(r, permission);
    assert Needs(r)[0] in Needs(r);
  }

  lemma CopyAdmission(w: Foreign, policies: BucketPolicies, resolver: Option<Metadata>, cfg: Config, r: HttpRequest)
    requires IsCopy(r) && !HoldsRootKey(cfg, r)
    ensures Admitted(w, policies, resolver, cfg, r) <==>
            && ParseCopySource(r.copySource).bucket != ""
            && Answer(w, policies, resolver, cfg, r, ("s3:GetObject", ParseCopySource(r.copySource))) == Allow
            && Answer(w, policies, resolver, cfg, r, ("s3:PutObject", Resource(r.bucket, r.key))) == Allow
  {
    NotRoot(cfg, r);
    CopyNeeds(r);
    var read, write := ("s3:GetObject", ParseCopySource(r.copySource)), ("s3:PutObject", Resource(r.bucket, r.key));
    assert Needs(r)[0] == read && Needs(r)[1] == write;
    assert forall need :: need in Needs(r) <==> need == read || need == write;
  }

  /** The permission a route other than a copy stands for: its own name unless listed here. */
  function Permission(action: string): string {
    match action
    case "s3:ListBuckets" => "s3:ListAllMyBuckets"
    case "s3:HeadBucket" => "s3:ListBucket"
    case "s3:ListObjects" => "s3:ListBucket"
    case "s3:ListObjectsV2" => "s3:ListBucket"
    case "s3:ListObjectVersions" => "s3:ListBucketVersions"
    case "s3:ListMultipartUploads" => "s3:ListBucketMultipartUploads"
    case "s3:DeleteObjects" => "s3:DeleteObject"
    case "s3:HeadObject" => "s3:GetObject"
    case "s3:CreateMultipartUpload" => "s3:PutObject"
    case "s3:UploadPart" => "s3:PutObject"
    case "s3:CompleteMultipartUpload" => "s3:PutObject"
    case "s3:ListParts" => "s3:ListMultipartUploadParts"
    case _ => action
  }

  lemma RequiredPermission(action: string)
    requires !IsMultiResourceAction(action)
    ensures GetRequiredPermissions(action) == [Permission(action)]
  {
  }

  /** The question put to the engine depends on the route only through the permission. */
  lemma SameQuestion(cfg: Config, r: HttpRequest, action: string, at: Resource, permission: string, resource: Resource)
    ensures EngineRequest(cfg, As(r, action, at), permission, resource) == EngineRequest(cfg, r, permission, resource)
  {
  }

  /** S3 routes that need the same permission are admitted alike. */
  lemma RoutesAlike(w: Foreign, policies: BucketPolicies, resolver: Option<Metadata>, cfg: Config, r: HttpRequest,
                    action: string)
    requires HasPrefix(r.routeAction, "s3:") && !IsCopy(r)
    requires HasPrefix(action, "s3:") && !IsCopy(r.(routeAction := action))
    requires Permission(action) == Permission(r.routeAction)
    ensures Admitted(w, policies, resolver, cfg, r) <==> Admitted(w, policies, resolver, cfg, r.(routeAction := action))
  {
    if !HoldsRootKey(cfg, r) {
      var at := Resource(r.bucket, r.key);
      RequiredPermission(r.routeAction);
      RequiredPermission(action);
      PlainAdmission(w, policies, resolver, cfg, r, Permission(action));
      PlainAdmission(w, policies, resolver, cfg, As(r, action, at), Permission(action));
      SameQuestion(cfg, r, action, at, Permission(action), at);
    }
  }

  lemma AdmittedAs(w: Foreign, policies: BucketPolicies, resolver: Option<Metadata>, cfg: Config, r: HttpRequest,
                   action: string, at: Resource)
    requires !HoldsRootKey(cfg, r) && (action == "s3:GetObject" || action == "s3:PutObject")
    ensures Admitted(w, policies, resolver, cfg, As(r, action, at)) <==>
            Answer(w, policies, resolver, cfg, r, (action, at)) == Allow
  {
    RequiredPermission(action);
    PlainAdmission(w, policies, resolver, cfg, As(r, action, at), action);
    SameQuestion(cfg, r, action, at, action, at);
  }

  /** A copy is admitted iff it names a source bucket and both reading the source and writing the target would
      be admitted on their own. */
  lemma CopyIsReadAndWrite(w: Foreign, policies: BucketPolicies, resolver: Option<Metadata>, cfg: Config,
                           r: HttpRequest)
    requires IsCopy(r) && !HoldsRootKey(cfg, r)
    ensures var source := ParseCopySource(r.copySource);
            Admitted(w, policies, resolver, cfg, r) <==>
            && source.bucket != ""
            && Admitted(w, policies, resolver, cfg, As(r, "s3:GetObject", source))
            && Admitted(w, policies, resolver, cfg, As(r, "s3:PutObject", Resource(r.bucket, r.key)))
  {
    var source := ParseCopySource(r.copySource);
    CopyAdmission(w, policies, resolver, cfg, r);
    var target := Resource(r.bucket, r.key);
    AdmittedAs(w, policies, resolver, cfg, r, "s3:GetObject", source);
    AdmittedAs(w, policies, resolver, cfg, r, "s3:PutObject", target);
  }

  /** The engine's question, spelled out from the request, the configuration and the recorded owners. */
  lemma WhatTheEngineIsAsked(w: Foreign, policies: BucketPolicies, resolver: Option<Metadata>, cfg: Config,
                             r: HttpRequest)
    requires HasPrefix(r.routeAction, "s3:") && !HoldsRootKey(cfg, r) && !IsCopy(r)
    ensures var named := r.bucket != "";
            var p := if r.serviceAccount.None? then Principal(r.user, Anonymous(r), false, false, None, "", "")
                     else Principal(r.user, Anonymous(r), false, true, r.serviceAccount.value.parentUserUUID,
                                    r.serviceAccount.value.policyMode, r.serviceAccount.value.embeddedPolicyJSON);
            var bucketOwner := if named && r.bucket in cfg.bucketOwners then Some(cfg.bucketOwners[r.bucket]) else None;
            var at := Resource(r.bucket, r.key);
            var objectOwner :=
              if named && r.key != "" && at in cfg.objectOwners then Some(cfg.objectOwners[at]) else None;
            Admitted(w, policies, resolver, cfg, r) <==>
            Authorize(w, policies, resolver,
                      Request(p, Permission(r.routeAction), at, Some(r.conditions), Some(r.vars),
                              bucketOwner, objectOwner))
            == Allow
  {
    RequiredPermission(r.routeAction);
    PlainAdmission(w, policies, resolver, cfg, r, Permission(r.routeAction));
  }

  // ---- Consequences ----

  /** The signed-in user is recorded as owner of the bucket, or of the object where the resource names one. */
  predicate RecordedOwner(cfg: Config, r: HttpRequest, at: Resource) {
    && r.user.Some? && at.bucket != ""
    && var me := r.user.value.uuid;
       || (at.bucket in cfg.bucketOwners && cfg.bucketOwners[at.bucket] == me)
       || (at.key != "" && at in cfg.objectOwners && cfg.objectOwners[at] == me)
  }

  lemma OwnershipAlone(w: Foreign, cfg: Config, r: HttpRequest, permission: string, at: Resource)
    requires !HoldsRootKey(cfg, r) && !OverrideAccount(r)
    ensures Answer(w, map[], None, cfg, r, (permission, at)) == Allow <==> !Anonymous(r) && RecordedOwner(cfg, r, at)
  {
    var req := EngineRequest(cfg, r, permission, at);
    if Anonymous(r) {
      AnonymousIndependence(w, map[], None, None, req, req);
    } else {
      NoResolverMeaning(w, map[], req);
    }
  }

  /** Without any policy an S3 request of anyone but root (and of override accounts, below) is admitted iff the
      signed-in user is the recorded owner of the target, and for a copy of the named source as well. A user
      whose key merely equals an unset alternative root key is no exception. */
  lemma OwnersOnly(w: Foreign, cfg: Config, r: HttpRequest)
    requires HasPrefix(r.routeAction, "s3:") && !HoldsRootKey(cfg, r) && !OverrideAccount(r)
    ensures Admitted(w, map[], None, cfg, r) <==>
            && !Anonymous(r) && RecordedOwner(cfg, r, Resource(r.bucket, r.key))
            && (IsCopy(r) ==> RecordedOwner(cfg, r, ParseCopySource(r.copySource)))
  {
    if IsCopy(r) {
      CopyAdmission(w, map[], None, cfg, r);
      OwnershipAlone(w, cfg, r, "s3:GetObject", ParseCopySource(r.copySource));
      OwnershipAlone(w, cfg, r, "s3:PutObject", Resource(r.bucket, r.key));
    } else {
      RequiredPermission(r.routeAction);
      PlainAdmission(w, map[], None, cfg, r, Permission(r.routeAction));
      OwnershipAlone(w, cfg, r, Permission(r.routeAction), Resource(r.bucket, r.key));
    }
  }

  /** A request marked anonymous is judged as one without user or service account, whatever it carries. */
  lemma MarkedAnonymousIsAnonymous(w: Foreign, policies: BucketPolicies, resolver: Option<Metadata>, cfg: Config,
                                   r: HttpRequest)
    requires r.markedAnonymous && !HoldsRootKey(cfg, r)
    ensures Admitted(w, policies, resolver, cfg, r) <==>
            Admitted(w, policies, resolver, cfg, r.(user := None, serviceAccount := None))
  {
    if HasPrefix(r.routeAction, "s3:") {
      var bare := r.(user := None, serviceAccount := None);
      forall permission, at
        ensures Answer(w, policies, resolver, cfg, r, (permission, at))
             == Answer(w, policies, resolver, cfg, bare, (permission, at))
      {
        AnonymousIndependence(w, policies, resolver, resolver, EngineRequest(cfg, r, permission, at),
                              EngineRequest(cfg, bare, permission, at));
      }
      if IsCopy(r) {
        CopyAdmission(w, policies, resolver, cfg, r);
        CopyAdmission(w, policies, resolver, cfg, bare);
      } else {
        RequiredPermission(r.routeAction);
        PlainAdmission(w, policies, resolver, cfg, r, Permission(r.routeAction));
        PlainAdmission(w, policies, resolver, cfg, bare, Permission(r.routeAction));
      }
    }
  }

  /** A service account in override mode passes, where no bucket policy decides, iff its embedded document
      parses and allows the request; ownership and its user's policies do not help. */
  lemma OverrideAccountPasses(w: Foreign, resolver: Option<Metadata>, cfg: Config, r: HttpRequest)
    requires HasPrefix(r.routeAction, "s3:") && !HoldsRootKey(cfg, r) && !IsCopy(r)
    requires OverrideAccount(r) && !Anonymous(r)
    ensures var json := r.serviceAccount.value.embeddedPolicyJSON;
            Admitted(w, map[], resolver, cfg, r) <==>
            && json != "" && w.parsePolicy(json).Some?
            && DocumentDecision(w, w.parsePolicy(json).value,
                                EngineRequest(cfg, r, Permission(r.routeAction), Resource(r.bucket, r.key))) == Allow
  {
    RequiredPermission(r.routeAction);
    PlainAdmission(w, map[], resolver, cfg, r, Permission(r.routeAction));
    OverrideMeaning(w, map[], resolver, EngineRequest(cfg, r, Permission(r.routeAction), Resource(r.bucket, r.key)));
  }

  /** A public bucket policy admits everyone, signed in or not, to reading its objects by either route. */
  lemma PublicRead(w: Foreign, policies: BucketPolicies, resolver: Option<Metadata>, cfg: Config, r: HttpRequest)
    requires PatternProofs.BucketName(r.bucket) && '$' !in r.bucket && r.key != ""
    requires r.routeAction == "s3:GetObject" || r.routeAction == "s3:HeadObject"
    requires Lookup(policies, r.bucket) == Some(PublicBucket(r.bucket))
    ensures Admitted(w, policies, resolver, cfg, r)
  {
    if !HoldsRootKey(cfg, r) {
      var req := EngineRequest(cfg, r, "s3:GetObject", Resource(r.bucket, r.key));
      PlainAdmission(w, policies, resolver, cfg, r, "s3:GetObject");
      PublicBucketAllows(w, r.bucket, req);
      AuthorizeIsFirstDecisive(w, policies, resolver, req);
      assert Consulted(w, policies, resolver, req)[0] == PublicBucket(r.bucket);
    }
  }
}
