/** What the trailing-`*` pattern language can and cannot express. */
module PatternProofs {
  import opened GoStrings
  import opened PolicyTypes
  import opened Variables
  import opened Matcher

  predicate IsWildcard(p: string) {
    HasSuffix(p, "*")
  }

  /** The pattern without its trailing `*`, if it has one. */
  function Stem(p: string): string {
    TrimSuffix(p, "*")
  }

  /** The prefix test: everything `q` matches, `p` matches too. */
  predicate Subsumes(p: string, q: string) {
    p == q || (IsWildcard(p) && HasPrefix(Stem(q), Stem(p)))
  }

  ghost predicate IncludesLanguage(p: string, q: string) {
    forall s :: MatchPattern(q, s) ==> MatchPattern(p, s)
  }

  lemma WildcardMatches(stem: string, subject: string)
    ensures MatchPattern(stem + "*", subject) <==> HasPrefix(subject, stem)
  {
  }

  /** The prefix test decides inclusion of pattern languages, soundly and completely. */
  lemma SubsumptionIsInclusion(p: string, q: string)
    ensures Subsumes(p, q) <==> IncludesLanguage(p, q)
  {
    if Subsumes(p, q) {
      forall s | MatchPattern(q, s) ensures MatchPattern(p, s) {
        assert HasPrefix(s, Stem(q));
      }
    } else {
      // A subject of q that p misses: q itself when p is a literal, otherwise q's stem.
      var missed := if IsWildcard(p) then Stem(q) else q;
      assert MatchPattern(q, missed);
      assert !MatchPattern(p, missed);
    }
  }

  predicate Covers(ps: seq<string>, qs: seq<string>) {
    forall q | q in qs :: exists p | p in ps :: Subsumes(p, q)
  }

  /** Two lists that cover each other match the same subjects. Dropping a pattern another one
      subsumes, repeating one, and reordering are all instances. */
  lemma MutualCoverage(ps: seq<string>, qs: seq<string>, subject: string)
    requires Covers(ps, qs) && Covers(qs, ps)
    ensures MatchAny(StrArr(ps), subject) <==> MatchAny(StrArr(qs), subject)
  {
    CoverageMatches(ps, qs, subject);
    CoverageMatches(qs, ps, subject);
  }

  lemma CoverageMatches(ps: seq<string>, qs: seq<string>, subject: string)
    requires Covers(ps, qs)
    ensures MatchAny(StrArr(qs), subject) ==> MatchAny(StrArr(ps), subject)
  {
  }

  function Without(ps: seq<string>, i: nat): seq<string>
    requires i < |ps|
  {
    ps[..i] + ps[i + 1..]
  }

  lemma WithoutKeeps(ps: seq<string>, i: nat, n: nat)
    requires i < |ps| && n < |ps| && n != i
    ensures ps[n] in Without(ps, i)
  {
  }

  /** A pattern at index `i` that another entry subsumes may be dropped. */
  lemma DropSubsumed(ps: seq<string>, i: nat, j: nat, subject: string)
    requires i < |ps| && j < |ps| && i != j && Subsumes(ps[j], ps[i])
    ensures MatchAny(StrArr(Without(ps, i)), subject) <==> MatchAny(StrArr(ps), subject)
  {
    if p :| p in ps && MatchPattern(p, subject) {
      var n :| 0 <= n < |ps| && ps[n] == p;
      if n == i {
        SubsumptionIsInclusion(ps[j], ps[i]);
        WithoutKeeps(ps, i, j);
      } else {
        WithoutKeeps(ps, i, n);
      }
    }
  }

  predicate BucketName(b: string) {
    b != "" && '/' !in b
  }

  const ARN_ROOT := "arn:aws:s3:::"

  lemma SlashFreeHeads(b: string, x: string, c: string, y: string)
    requires '/' !in b && '/' !in c
    ensures HasPrefix(c + "/" + y, b + "/" + x) <==> b == c && HasPrefix(y, x)
  {
    var s, t := b + "/" + x, c + "/" + y;
    if |b| < |c| {
      assert s[|b|] == '/' && t[|b|] == c[|b|];
    } else if |c| < |b| {
      assert t[|c|] == '/' && s[|c|] == b[|c|];
    } else {
      assert s[..|b|] == b && t[..|b|] == c && s[|b| + 1..] == x && t[|b| + 1..] == y;
      assert s <= t ==> t[..|b|] == s[..|b|] && s[|b| + 1..] == t[|b| + 1..|s|];
      assert b == c && x <= y ==> t[..|s|] == s;
    }
  }

  /** `arn:aws:s3:::b/x*` reaches exactly the objects of bucket b whose key starts with x:
      no other bucket, not the bucket itself, not the service. */
  lemma BucketScope(b: string, x: string, r: Resource)
    requires BucketName(b) && '/' !in r.bucket
    ensures MatchResource(Str(ARN_ROOT + b + "/" + x + "*"), r)
       <==> r.bucket == b && r.key != "" && HasPrefix(r.key, x)
  {
    var stem := ARN_ROOT + b + "/" + x;
    WildcardMatches(stem, r.ARN());
    if r.bucket == "" {
      assert r.ARN() == "*";
      assert stem[0] == 'a';
    } else if r.key == "" {
      assert stem[|ARN_ROOT| + |b|] == '/';
      assert |r.bucket| > |b| ==> r.ARN()[|ARN_ROOT| + |b|] == r.bucket[|b|];
    } else {
      ObjectUnderPrefix(b, x, r);
    }
  }

  /** Without a wildcard a pattern reaches one resource: the bucket itself, or one object. */
  lemma LiteralScope(b: string, key: string, r: Resource)
    requires BucketName(b) && '/' !in r.bucket && !IsWildcard(b) && !IsWildcard(key)
    ensures MatchResource(Str(Resource(b, key).ARN()), r) <==> r == Resource(b, key)
  {
    var p := Resource(b, key).ARN();
    if r.bucket == "" {
      assert r.ARN() == "*" && p[0] == 'a';
    } else {
      ARNInjective(Resource(b, key), r);
    }
    assert p[|p| - 1] == if key == "" then b[|b| - 1] else key[|key| - 1];
  }

  lemma ObjectUnderPrefix(b: string, x: string, r: Resource)
    requires BucketName(b) && BucketName(r.bucket) && r.key != ""
    ensures HasPrefix(r.ARN(), ARN_ROOT + b + "/" + x) <==> r.bucket == b && HasPrefix(r.key, x)
  {
    var s, t := b + "/" + x, r.bucket + "/" + r.key;
    assert ARN_ROOT + b + "/" + x == ARN_ROOT + s && r.ARN() == ARN_ROOT + t;
    PrefixUnderRoot(s, t);
    SlashFreeHeads(b, x, r.bucket, r.key);
  }

  lemma PrefixUnderRoot(s: string, t: string)
    ensures HasPrefix(ARN_ROOT + t, ARN_ROOT + s) <==> HasPrefix(t, s)
  {
    if HasPrefix(ARN_ROOT + t, ARN_ROOT + s) {
      assert forall i | 0 <= i < |s| ::
          s[i] == (ARN_ROOT + s)[|ARN_ROOT| + i] == (ARN_ROOT + t)[|ARN_ROOT| + i] == t[i];
    }
  }

  /** Distinct resources have distinct ARNs. */
  lemma ARNInjective(r: Resource, q: Resource)
    requires BucketName(r.bucket) && BucketName(q.bucket)
    ensures r.ARN() == q.ARN() <==> r == q
  {
    if r.key == "" && q.key != "" {
      BareBucketDiffers(r, q);
    } else if r.key != "" && q.key == "" {
      BareBucketDiffers(q, r);
    } else if r.key == "" {
      assert r.bucket == r.ARN()[|ARN_ROOT|..] && q.bucket == q.ARN()[|ARN_ROOT|..];
    } else {
      assert r.ARN() == ARN_ROOT + (r.bucket + "/" + r.key) && q.ARN() == ARN_ROOT + (q.bucket + "/" + q.key);
      PrefixUnderRoot(r.bucket + "/" + r.key, q.bucket + "/" + q.key);
      PrefixUnderRoot(q.bucket + "/" + q.key, r.bucket + "/" + r.key);
      SlashFreeHeads(r.bucket, r.key, q.bucket, q.key);
      SlashFreeHeads(q.bucket, q.key, r.bucket, r.key);
    }
  }

  lemma BareBucketDiffers(r: Resource, q: Resource)
    requires BucketName(r.bucket) && BucketName(q.bucket) && r.key == "" && q.key != ""
    ensures r.ARN() != q.ARN()
  {
    var at := |ARN_ROOT| + |q.bucket|;
    assert q.ARN()[at] == '/';
    assert |r.bucket| > |q.bucket| ==> r.ARN()[at] == r.bucket[|q.bucket|];
  }

  /** The text a variable reference stands for, or the reference itself when it has no value. */
  function FolderOf(ctx: VarContext, name: string): string {
    match GetValue(ctx, name)
    case Some(v) => v
    case None => Reference(name)
  }

  lemma HomeSubstitution(w: Foreign, pre: string, name: string, ctx: VarContext)
    requires '$' !in pre && name != "" && '}' !in name
    ensures SubstituteValue(w, ctx, Str(pre + (Reference(name) + "/*"))) ==
            match GetValue(ctx, name) case Some(v) => Some(Str(pre + (v + "/*"))) case None => None
  {
    SubstituteAtVariable(ctx, pre, name, "/*");
    SubstituteIdentity(ctx, "/*");
  }

  /** Home directories: a pattern `arn:aws:s3:::b/${var}/` plus `*` gives each value of the variable its own folder of
      the bucket. Without a value the pattern is taken as written, so it reaches only keys under the
      literal text of the reference. */
  lemma HomeDirectoryScope(w: Foreign, b: string, name: string, r: Resource, ctx: VarContext)
    requires BucketName(b) && '$' !in b && '/' !in r.bucket
    requires name != "" && '}' !in name
    ensures MatchResourceWithVariables(w, Str(ARN_ROOT + b + "/" + (Reference(name) + "/*")), r, Some(ctx))
       <==> r.bucket == b && r.key != "" && HasPrefix(r.key, FolderOf(ctx, name) + "/")
  {
    var pre := ARN_ROOT + b + "/";
    HomeSubstitution(w, pre, name, ctx);
    var folder := FolderOf(ctx, name);
    assert pre + (folder + "/*") == ARN_ROOT + b + "/" + (folder + "/") + "*";
    BucketScope(b, folder + "/", r);
  }

  function HomePattern(b: string, name: string): string {
    ARN_ROOT + b + "/" + (Reference(name) + "/*")
  }

  /** The request data behind each variable, told by the folder its home directory pattern reaches. Only the
      listing parameters may be empty; any other variable without data, and any unknown one, stays as written. */
  lemma VariableFolders(w: Foreign, b: string, r: Resource, ctx: VarContext, name: string)
    requires BucketName(b) && '$' !in b && '/' !in r.bucket && name != "" && '}' !in name
    ensures MatchResourceWithVariables(w, Str(HomePattern(b, name)), r, Some(ctx)) <==>
            r.bucket == b && r.key != "" &&
            HasPrefix(r.key, (
              match name
              case "aws:username" => if ctx.username != "" then ctx.username else Reference(name)
              case "aws:userid" => if ctx.userID != "" then ctx.userID else Reference(name)
              case "aws:SourceIp" => if ctx.sourceIP != "" then ctx.sourceIP else Reference(name)
              case "aws:CurrentTime" => if ctx.currentTime.Some? then ctx.currentTime.value.text else Reference(name)
              case "aws:UserAgent" => if ctx.userAgent != "" then ctx.userAgent else Reference(name)
              case "s3:prefix" => ctx.s3Prefix
              case "s3:delimiter" => ctx.s3Delimiter
              case _ => Reference(name)) + "/")
  {
    HomeReaches(w, b, name, r, ctx);
  }

  lemma OneFolder(u: string, v: string, key: string)
    requires '/' !in u && '/' !in v && HasPrefix(key, u + "/") && HasPrefix(key, v + "/")
    ensures u == v
  {
    var rest := key[|u| + 1..];
    assert key == u + "/" + rest;
    assert v + "/" + "" == v + "/";
    SlashFreeHeads(v, "", u, rest);
  }

  /** One home directory pattern keeps users apart: no object is in reach of two users whose names differ and
      hold no slash. */
  lemma HomesAreDisjoint(w: Foreign, b: string, r: Resource, one: VarContext, other: VarContext)
    requires BucketName(b) && '$' !in b && '/' !in r.bucket
    requires one.username != "" && '/' !in one.username && other.username != "" && '/' !in other.username
    requires MatchResourceWithVariables(w, Str(HomePattern(b, "aws:username")), r, Some(one))
    requires MatchResourceWithVariables(w, Str(HomePattern(b, "aws:username")), r, Some(other))
    ensures one.username == other.username
  {
    VariableFolders(w, b, r, one, "aws:username");
    VariableFolders(w, b, r, other, "aws:username");
    OneFolder(one.username, other.username, r.key);
  }

  lemma SubstitutedListMatches(ctx: VarContext, patterns: seq<string>, subject: string)
    ensures MatchAny(StrArr(SubstituteAll(ctx, patterns)), subject)
       <==> exists i | 0 <= i < |patterns| :: MatchPattern(Substitute(ctx, patterns[i]).text, subject)
  {
    var texts := SubstituteAll(ctx, patterns);
    assert forall i | 0 <= i < |patterns| :: texts[i] == Substitute(ctx, patterns[i]).text && texts[i] in texts;
  }

  lemma SingleMatches(w: Foreign, p: string, r: Resource, ctx: VarContext)
    ensures MatchResourceWithVariables(w, Str(p), r, Some(ctx))
       <==> MatchPattern(if Substitute(ctx, p).ok then Substitute(ctx, p).text else p, r.ARN())
  {
  }

  /** A list of resource patterns. When every variable in every entry has a value, the list matches iff
      one entry on its own does. When a single variable anywhere in it has none, no entry is substituted:
      the list matches iff one entry does as written. */
  lemma ResourceListMeaning(w: Foreign, patterns: seq<string>, r: Resource, ctx: VarContext)
    ensures MatchResourceWithVariables(w, StrArr(patterns), r, Some(ctx)) <==>
            if AllAvailable(ctx, patterns)
            then exists i | 0 <= i < |patterns| :: MatchResourceWithVariables(w, Str(patterns[i]), r, Some(ctx))
            else MatchResource(StrArr(patterns), r)
  {
    if AllAvailable(ctx, patterns) {
      SubstitutedListMatches(ctx, patterns, r.ARN());
      forall i | 0 <= i < |patterns|
        ensures MatchResourceWithVariables(w, Str(patterns[i]), r, Some(ctx))
           <==> MatchPattern(Substitute(ctx, patterns[i]).text, r.ARN())
      {
        assert patterns[i] in patterns;
        SingleMatches(w, patterns[i], r, ctx);
      }
    }
  }

  /** An entry on its own, given the variables. */
  predicate MatchesAlone(ctx: VarContext, p: string, r: Resource) {
    MatchPattern(if Substitute(ctx, p).ok then Substitute(ctx, p).text else p, r.ARN())
  }

  /** No entry matches as written, but one whose variables are all available does once substituted. */
  predicate ListLoses(ctx: VarContext, patterns: seq<string>, r: Resource) {
    && (forall i | 0 <= i < |patterns| :: !MatchPattern(patterns[i], r.ARN()))
    && (exists i | 0 <= i < |patterns| ::
          Substitute(ctx, patterns[i]).ok && MatchPattern(Substitute(ctx, patterns[i]).text, r.ARN()))
  }

  /** Some entry matches as written, but none does on its own. */
  predicate ListGains(ctx: VarContext, patterns: seq<string>, r: Resource) {
    && (exists i | 0 <= i < |patterns| :: MatchPattern(patterns[i], r.ARN()))
    && (forall i | 0 <= i < |patterns| :: !MatchesAlone(ctx, patterns[i], r))
  }

  /** A list means what its entries mean, except exactly when some variable in it is unavailable and the
      list loses a request one of its entries matches or gains one that none of them does. */
  lemma ListVersusEntries(w: Foreign, patterns: seq<string>, r: Resource, ctx: VarContext)
    ensures var list := MatchResourceWithVariables(w, StrArr(patterns), r, Some(ctx));
            var entries := exists i | 0 <= i < |patterns| ::
                             MatchResourceWithVariables(w, Str(patterns[i]), r, Some(ctx));
            && (entries && !list <==> !AllAvailable(ctx, patterns) && ListLoses(ctx, patterns, r))
            && (list && !entries <==> !AllAvailable(ctx, patterns) && ListGains(ctx, patterns, r))
  {
    ResourceListMeaning(w, patterns, r, ctx);
    forall i | 0 <= i < |patterns|
      ensures MatchResourceWithVariables(w, Str(patterns[i]), r, Some(ctx)) <==> MatchesAlone(ctx, patterns[i], r)
    {
      SingleMatches(w, patterns[i], r, ctx);
    }
    assert forall i | 0 <= i < |patterns| :: patterns[i] in patterns;
  }

  /** Everything but the resource check passes. */
  predicate RestPasses(w: Foreign, s: Statement, req: Request) {
    PrincipalPasses(s, req.principal) && ActionPasses(s, req.action) && ConditionPasses(w, s, req)
  }

  predicate DeniesOver(w: Foreign, s: Statement, resource: Value, req: Request) {
    StatementDecision(w, s.(resource := resource), req) == ExplicitDeny
  }

  /** The consequence for a denying statement: over a list it stops denying what an entry alone denies
      exactly where the list loses, and denies what no entry does exactly where it gains. */
  lemma DenyOverList(w: Foreign, s: Statement, patterns: seq<string>, req: Request)
    requires s.effect == "Deny" && req.varContext.Some?
    ensures var ctx := req.varContext.value;
            var list := DeniesOver(w, s, StrArr(patterns), req);
            var entries := exists i | 0 <= i < |patterns| :: DeniesOver(w, s, Str(patterns[i]), req);
            && (entries && !list <==>
                RestPasses(w, s, req) && !AllAvailable(ctx, patterns) && ListLoses(ctx, patterns, req.resource))
            && (list && !entries <==>
                RestPasses(w, s, req) && !AllAvailable(ctx, patterns) && ListGains(ctx, patterns, req.resource))
  {
    ListVersusEntries(w, patterns, req.resource, req.varContext.value);
    OverResource(w, s, StrArr(patterns), req);
    forall i | 0 <= i < |patterns|
      ensures DeniesOver(w, s, Str(patterns[i]), req) <==>
              RestPasses(w, s, req)
              && MatchResourceWithVariables(w, Str(patterns[i]), req.resource, req.varContext)
    {
      OverResource(w, s, Str(patterns[i]), req);
    }
  }

  lemma OverResource(w: Foreign, s: Statement, v: Value, req: Request)
    requires s.effect == "Deny" && v != Nil
    ensures DeniesOver(w, s, v, req) <==>
            RestPasses(w, s, req) && MatchResourceWithVariables(w, v, req.resource, req.varContext)
  {
    assert ConditionPasses(w, s.(resource := v), req) == ConditionPasses(w, s, req);
  }

  /** Both failures on one list, for every bucket, variable and resource: a home directory next to an entry
      with an unavailable variable. The home entry alone reaches the folder of the variable's value; the
      list reaches the folders spelled like the two references instead. */
  lemma OneUnavailableVariableSpoilsTheList(w: Foreign, b: string, name: string, bad: string, r: Resource,
                                            ctx: VarContext)
    requires BucketName(b) && '$' !in b && '/' !in r.bucket
    requires name != "" && '}' !in name && bad != "" && '}' !in bad
    requires GetValue(ctx, name).Some? && GetValue(ctx, bad).None?
    ensures MatchResourceWithVariables(w, Str(HomePattern(b, name)), r, Some(ctx))
       <==> r.bucket == b && r.key != "" && HasPrefix(r.key, GetValue(ctx, name).value + "/")
    ensures MatchResourceWithVariables(w, StrArr([HomePattern(b, name), HomePattern(b, bad)]), r, Some(ctx))
       <==> r.bucket == b && r.key != ""
            && (HasPrefix(r.key, Reference(name) + "/") || HasPrefix(r.key, Reference(bad) + "/"))
  {
    HomeReaches(w, b, name, r, ctx);
    BadEntryUnavailable(ctx, b, bad);
    TwoAsWritten(w, HomePattern(b, name), HomePattern(b, bad), r, ctx);
    RawFolderScope(b, name, r);
    RawFolderScope(b, bad, r);
  }

  lemma HomeReaches(w: Foreign, b: string, name: string, r: Resource, ctx: VarContext)
    requires BucketName(b) && '$' !in b && '/' !in r.bucket && name != "" && '}' !in name
    ensures MatchResourceWithVariables(w, Str(HomePattern(b, name)), r, Some(ctx))
       <==> r.bucket == b && r.key != "" && HasPrefix(r.key, FolderOf(ctx, name) + "/")
  {
    HomeDirectoryScope(w, b, name, r, ctx);
  }

  lemma BadEntryUnavailable(ctx: VarContext, b: string, bad: string)
    requires '$' !in b && bad != "" && '}' !in bad && GetValue(ctx, bad).None?
    ensures !Substitute(ctx, HomePattern(b, bad)).ok
  {
    SubstituteAtVariable(ctx, ARN_ROOT + b + "/", bad, "/*");
  }

  lemma TwoAsWritten(w: Foreign, p: string, q: string, r: Resource, ctx: VarContext)
    requires !Substitute(ctx, q).ok
    ensures MatchResourceWithVariables(w, StrArr([p, q]), r, Some(ctx))
       <==> MatchResource(Str(p), r) || MatchResource(Str(q), r)
  {
    ResourceListMeaning(w, [p, q], r, ctx);
    assert [p, q][0] == p && [p, q][1] == q;
  }

  /** As written, a reference is the name of a folder. */
  lemma RawFolderScope(b: string, name: string, r: Resource)
    requires BucketName(b) && '/' !in r.bucket
    ensures MatchResource(Str(HomePattern(b, name)), r)
       <==> r.bucket == b && r.key != "" && HasPrefix(r.key, Reference(name) + "/")
  {
    assert HomePattern(b, name) == ARN_ROOT + b + "/" + (Reference(name) + "/") + "*";
    BucketScope(b, Reference(name) + "/", r);
  }

  /** Patterns without `$` mean the same with and without variables. */
  lemma PlainPatterns(w: Foreign, patterns: seq<string>, r: Resource, ctx: Option<VarContext>)
    requires forall p | p in patterns :: '$' !in p
    ensures MatchResourceWithVariables(w, StrArr(patterns), r, ctx) <==> MatchResource(StrArr(patterns), r)
    ensures forall p | p in patterns ::
              MatchResourceWithVariables(w, Str(p), r, ctx) <==> MatchPattern(p, r.ARN())
  {
    if ctx.Some? {
      forall p | p in patterns ensures Substitute(ctx.value, p) == Substituted(p, true) {
        SubstituteIdentity(ctx.value, p);
      }
      assert SubstituteAll(ctx.value, patterns) == patterns;
    }
  }

  /** The strings a field lists: itself, or its string items. */
  predicate Lists(aws: Value, s: string) {
    match aws
    case Str(t) => s == t
    case AnyArr(items) => Str(s) in items
    case StrArr(strs) => s in strs
    case _ => false
  }

  /** A principal field that names everyone. */
  predicate IsPublic(v: Value) {
    v == Str("*") || (v.Map? && "AWS" in v.fields && Lists(v.fields["AWS"], "*"))
  }

  /** Some entry of the list is an ARN of this signed-in user. */
  ghost predicate NamesUser(v: Value, p: Principal) {
    v.Map? && "AWS" in v.fields && exists arn :: Lists(v.fields["AWS"], arn) && MatchUserARN(arn, p)
  }

  /** A field matches a principal exactly when it names everyone or lists an ARN of the user; an anonymous
      request has no such ARN, whatever user data it carries. */
  lemma PrincipalMeaning(v: Value, p: Principal)
    ensures MatchPrincipal(v, p) <==> IsPublic(v) || NamesUser(v, p)
    ensures p.isAnonymous || p.user.None? ==> !NamesUser(v, p)
  {
    if v.Map? && "AWS" in v.fields {
      var aws := v.fields["AWS"];
      match aws {
        case AnyArr(items) =>
          if item :| item in items && item.Str? && (item.s == "*" || MatchUserARN(item.s, p)) {
            assert Lists(aws, item.s);
          }
        case StrArr(strs) =>
          if s :| s in strs && (s == "*" || MatchUserARN(s, p)) {
            assert Lists(aws, s);
          }
        case Str(s) => assert Lists(aws, s);
        case _ =>
      }
      if arn :| Lists(aws, arn) && MatchUserARN(arn, p) {
        assert aws.AnyArr? ==> Str(arn) in aws.items;
      }
    }
  }

  const USER_MARK := ":user/"

  /** A user ARN matches exactly the signed-in user whose access key stands where the documentation
      writes the user name. */
  lemma UserARNMatches(account: string, key: string, p: Principal)
    requires ':' !in account && '/' !in account
    requires !Contains(key, USER_MARK)
    ensures MatchUserARN("arn:aws:iam::" + account + USER_MARK + key, p)
       <==> !p.isAnonymous && p.user.Some? && p.user.value.accessKey == key
  {
    var head := "arn:aws:iam::" + account;
    var arn := head + USER_MARK + key;
    assert NotBefore(arn, USER_MARK, |head|) by {
      forall i | 0 <= i < |head| ensures !(USER_MARK <= arn[i..]) {
        NoMarkInHead(account, key, i);
      }
    }
    assert arn[|head|..] == USER_MARK + key;
    IndexFirst(arn, USER_MARK, |head|);
    SplitAtMark(head, key);
    assert "arn:aws:iam::" <= arn;
  }

  lemma SplitAtMark(head: string, key: string)
    requires Index(head + USER_MARK + key, USER_MARK) == Some(|head|) && !Contains(key, USER_MARK)
    ensures Split(head + USER_MARK + key, USER_MARK) == [head, key]
  {
    var arn := head + USER_MARK + key;
    assert arn[..|head|] == head && arn[|head| + |USER_MARK|..] == key;
    assert Split(key, USER_MARK) == [key];
  }

  /** An ARN matches a user only if it is an IAM ARN and what follows its first mark is the access key. */
  lemma UserARNForm(arn: string, p: Principal)
    requires MatchUserARN(arn, p)
    ensures !p.isAnonymous && p.user.Some? && HasPrefix(arn, "arn:aws:iam::")
    ensures var at := Index(arn, USER_MARK);
            at.Some? && arn == arn[..at.value] + USER_MARK + p.user.value.accessKey
  {
    var at := Index(arn, USER_MARK).value;
    var rest := arn[at + |USER_MARK|..];
    assert arn == arn[..at] + (USER_MARK + rest);
    if Index(rest, USER_MARK).None? {
      assert Split(rest, USER_MARK) == [rest];
    } else {
      assert |Split(rest, USER_MARK)| >= 2;
    }
  }

  lemma NoMarkInHead(account: string, key: string, i: nat)
    requires ':' !in account && '/' !in account && i < 13 + |account|
    ensures !(USER_MARK <= ("arn:aws:iam::" + account + USER_MARK + key)[i..])
  {
    var root := "arn:aws:iam::";
    var arn := root + account + USER_MARK + key;
    if i >= 13 {
      assert arn[i..][0] == account[i - 13];
    } else if i < 12 {
      assert arn[i..][0] == root[i] && arn[i..][1] == root[i + 1];
    } else if |account| <= 4 {
      // The mark's own colon falls inside the six characters from position 12.
      assert arn[12..][|account| + 1] == arn[13 + |account|] == USER_MARK[0];
    } else {
      assert arn[12..][5] == account[4];
    }
  }
}
