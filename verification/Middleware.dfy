/** The authorization middleware: route action to permissions, copy sources, and the final verdict. */
module Middleware {
  import opened GoStrings
  import opened PolicyTypes
  import opened PolicyCache
  import opened Resolver
  import opened Engine
  import PatternProofs

  // ---- Action mapping ----

  /** The static table; actions that are not listed need the permission of their own name. */
  function GetRequiredPermissions(action: string): seq<string> {
    match action
    case "s3:ListBuckets" => ["s3:ListAllMyBuckets"]
    case "s3:HeadBucket" => ["s3:ListBucket"]
    case "s3:ListObjects" => ["s3:ListBucket"]
    case "s3:ListObjectsV2" => ["s3:ListBucket"]
    case "s3:ListObjectVersions" => ["s3:ListBucketVersions"]
    case "s3:ListMultipartUploads" => ["s3:ListBucketMultipartUploads"]
    case "s3:DeleteObjects" => ["s3:DeleteObject"]
    case "s3:HeadObject" => ["s3:GetObject"]
    case "s3:CopyObject" => ["s3:GetObject", "s3:PutObject"]
    case "s3:UploadPartCopy" => ["s3:GetObject", "s3:PutObject"]
    case "s3:CreateMultipartUpload" => ["s3:PutObject"]
    case "s3:UploadPart" => ["s3:PutObject"]
    case "s3:CompleteMultipartUpload" => ["s3:PutObject"]
    case "s3:ListParts" => ["s3:ListMultipartUploadParts"]
    case _ => [action]
  }

  predicate IsMultiResourceAction(action: string) {
    action == "s3:CopyObject" || action == "s3:UploadPartCopy"
  }

  /** The two tables fit together: a second permission is there exactly for the actions the
      middleware reads it for. */
  lemma TablesFit(action: string)
    ensures |GetRequiredPermissions(action)| == if IsMultiResourceAction(action) then 2 else 1
  {
  }

  // ---- The request ----

  datatype ServiceAccountInfo = ServiceAccountInfo(
    parentUserUUID: Option<UUID>, policyMode: string, embeddedPolicyJSON: string)

  /** What the middleware reads of the HTTP request and its context. */
  datatype HttpRequest = HttpRequest(
    routeAction: string,
    user: Option<User>,
    markedAnonymous: bool,
    serviceAccount: Option<ServiceAccountInfo>,
    bucket: string,
    key: string,
    copySource: string,
    conditions: ConditionContext,
    vars: VarContext)

  datatype Config = Config(
    rootKey: string,
    altRootKey: string,
    bucketOwners: map<string, UUID>,
    objectOwners: map<Resource, UUID>)
  {
    predicate IsAdmin(user: Option<User>) {
      user.Some? && (user.value.accessKey == rootKey || (altRootKey != "" && user.value.accessKey == altRootKey))
    }

    function BucketOwner(r: Resource): Option<UUID> {
      if r.bucket != "" && r.bucket in bucketOwners then Some(bucketOwners[r.bucket]) else None
    }

    function ObjectOwner(r: Resource): Option<UUID> {
      if r.bucket != "" && r.key != "" && r in objectOwners then Some(objectOwners[r]) else None
    }
  }

  /** parseCopySource: the bucket, and the key with all its slashes. */
  function ParseCopySource(header: string): Resource {
    if header == "" then Resource("", "")
    else
      var parts := SplitN2(TrimPrefix(header, "/"), "/");
      Resource(parts[0], if |parts| == 2 then parts[1] else "")
  }

  /** Both header forms name the same source, whatever slashes the key holds. */
  lemma CopySourceForms(b: string, key: string)
    requires PatternProofs.BucketName(b)
    ensures ParseCopySource(b + "/" + key) == Resource(b, key)
    ensures ParseCopySource("/" + b + "/" + key) == Resource(b, key)
    ensures ParseCopySource(b) == ParseCopySource("/" + b) == Resource(b, "")
  {
    var s := b + "/" + key;
    IndexAfter(b, '/', key);
    IndexAbsent(b, '/');
    assert s[..|b|] == b && s[|b| + 1..] == key && s[0] == b[0];
    assert ("/" + b + "/" + key)[1..] == s;
    assert ("/" + b)[1..] == b;
  }

  function PrincipalOf(cfg: Config, r: HttpRequest): Principal {
    var anonymous := r.markedAnonymous || r.user.None?;
    match r.serviceAccount
    case None => Principal(r.user, anonymous, cfg.IsAdmin(r.user), false, None, "", "")
    case Some(sa) => Principal(r.user, anonymous, cfg.IsAdmin(r.user), true,
                               sa.parentUserUUID, sa.policyMode, sa.embeddedPolicyJSON)
  }

  /** The engine request for one permission on one resource. */
  function EngineRequest(cfg: Config, r: HttpRequest, permission: string, resource: Resource): Request {
    Request(PrincipalOf(cfg, r), permission, resource, Some(r.conditions), Some(r.vars),
            cfg.BucketOwner(resource), cfg.ObjectOwner(resource))
  }

  /** Every (permission, resource) pair the route action needs. */
  function Needs(r: HttpRequest): seq<(string, Resource)> {
    TablesFit(r.routeAction);
    var permissions := GetRequiredPermissions(r.routeAction);
    var target := Resource(r.bucket, r.key);
    if IsMultiResourceAction(r.routeAction)
    then [(permissions[0], ParseCopySource(r.copySource)), (permissions[1], target)]
    else [(permissions[0], target)]
  }

  function Answer(w: Foreign, policies: BucketPolicies, resolver: Option<Metadata>, cfg: Config, r: HttpRequest,
                  need: (string, Resource)): Decision {
    Authorize(w, policies, resolver, EngineRequest(cfg, r, need.0, need.1))
  }

  predicate IsS3Route(action: string) {
    HasPrefix(action, "s3:")
  }

  /** An S3 request reaches the handler iff it is the administrator's, or every permission its route
      action maps to is allowed on the resource the route (or the copy header) names, and a copy names a
      source bucket. Keys listed in a body, as in a bulk delete, are not asked about here. */
  predicate Admitted(w: Foreign, policies: BucketPolicies, resolver: Option<Metadata>, cfg: Config,
                     r: HttpRequest)
  {
    || !IsS3Route(r.routeAction)
    || cfg.IsAdmin(r.user)
    || ((forall need | need in Needs(r) :: Answer(w, policies, resolver, cfg, r, need) == Allow)
        && (IsMultiResourceAction(r.routeAction) ==> ParseCopySource(r.copySource).bucket != ""))
  }

  /** evaluateMultiResourceAction: the source is asked first, and its refusal is the answer. */
  method EvaluateMultiResourceAction(w: Foreign, engine: PolicyEngine, cfg: Config, r: HttpRequest,
                                     permissions: seq<string>) returns (d: Decision)
    requires |permissions| == 2
    ensures var source := ParseCopySource(r.copySource);
            var first := Answer(w, engine.cache.Policies(), engine.resolver, cfg, r, (permissions[0], source));
            var second := Answer(w, engine.cache.Policies(), engine.resolver, cfg, r,
                                 (permissions[1], Resource(r.bucket, r.key)));
            d == if source.bucket == "" then Deny else if first != Allow then first else second
  {
    var source := ParseCopySource(r.copySource);
    if source.bucket == "" {
      return Deny;
    }
    var sourceDecision := engine.Evaluate(w, EngineRequest(cfg, r, permissions[0], source));
    if sourceDecision != Allow {
      return sourceDecision;
    }
    var destDecision := engine.Evaluate(w, EngineRequest(cfg, r, permissions[1], Resource(r.bucket, r.key)));
    if destDecision != Allow {
      return destDecision;
    }
    return Allow;
  }

  /** AuthorizationMiddleware: whether the next handler is called. */
  method AuthorizationMiddleware(w: Foreign, engine: PolicyEngine, cfg: Config, r: HttpRequest) returns (served: bool)
    ensures served <==> Admitted(w, engine.cache.Policies(), engine.resolver, cfg, r)
  {
    if r.routeAction == "" || !HasPrefix(r.routeAction, "s3:") {
      return true;
    }
    var isAnonymous := r.markedAnonymous || r.user.None?;
    var principal := Principal(r.user, isAnonymous, cfg.IsAdmin(r.user), false, None, "", "");
    if r.serviceAccount.Some? {
      var sa := r.serviceAccount.value;
      principal := principal.(isServiceAccount := true, parentUserUUID := sa.parentUserUUID,
                              policyMode := sa.policyMode, embeddedPolicyJSON := sa.embeddedPolicyJSON);
    }
    if principal.isAdmin {
      return true;
    }
    var requiredPermissions := GetRequiredPermissions(r.routeAction);
    TablesFit(r.routeAction);
    var decision: Decision;
    if IsMultiResourceAction(r.routeAction) {
      decision := EvaluateMultiResourceAction(w, engine, cfg, r, requiredPermissions);
      assert Needs(r)[0] in Needs(r) && Needs(r)[1] in Needs(r);
    } else {
      var resource := Resource(r.bucket, r.key);
      var req := Request(principal, requiredPermissions[0], resource, Some(r.conditions), Some(r.vars),
                         cfg.BucketOwner(resource), cfg.ObjectOwner(resource));
      decision := engine.Evaluate(w, req);
      assert Needs(r)[0] in Needs(r);
    }
    return decision == Allow;
  }
}
