/** What a statement decides, element by element, from the request's own fields. Together the lemmas determine
    every decision of every statement: an element either refuses the request or can be taken away. */
module StatementProofs {
  import opened GoStrings
  import opened PolicyTypes
  import opened Variables
  import opened Conditions
  import opened Matcher
  import opened PatternProofs

  // ---- Patterns and fields ----

  /** A pattern ending in `*` reaches what starts like it, any other only itself. */
  predicate Reaches(p: string, subject: string) {
    if p != "" && p[|p| - 1] == '*' then p[..|p| - 1] <= subject else p == subject
  }

  lemma PatternMeaning(p: string, subject: string)
    ensures MatchPattern(p, subject) <==> Reaches(p, subject)
  {
    if p == subject && p != "" && p[|p| - 1] == '*' {
      assert p[..|p| - 1] <= subject;
    }
  }

  ghost predicate SomeEntryReaches(v: Value, subject: string) {
    exists p: string :: Lists(v, p) && Reaches(p, subject)
  }

  /** A field of any shape matches iff one of the strings it lists does. */
  lemma FieldMeaning(v: Value, subject: string)
    ensures MatchAny(v, subject) <==> SomeEntryReaches(v, subject)
  {
    forall p ensures MatchPattern(p, subject) <==> Reaches(p, subject) {
      PatternMeaning(p, subject);
    }
    match v {
      case AnyArr(items) =>
        if item :| item in items && item.Str? && MatchPattern(item.s, subject) {
          assert Lists(v, item.s);
        }
      case StrArr(strs) =>
        if s :| s in strs && MatchPattern(s, subject) {
          assert Lists(v, s);
        }
      case Str(s) => assert Lists(v, s);
      case _ =>
    }
  }

  /** The texts substitution works on: an item of a JSON array that is no string is formatted first. */
  function Written(w: Foreign, v: Value): seq<string> {
    match v
    case Str(s) => [s]
    case StrArr(strs) => strs
    case AnyArr(items) => seq(|items|, i requires 0 <= i < |items| =>
      if items[i].Str? then items[i].s else w.sprint(items[i]))
    case _ => []
  }

  /** Every variable in every text has a value. */
  predicate EveryVariableHasValue(ctx: VarContext, texts: seq<string>) {
    forall i | 0 <= i < |texts| :: Substitute(ctx, texts[i]).ok
  }

  lemma AvailableMeaning(ctx: VarContext, texts: seq<string>)
    ensures AllAvailable(ctx, texts) <==> EveryVariableHasValue(ctx, texts)
  {
    assert forall i | 0 <= i < |texts| :: texts[i] in texts;
  }

  lemma SubstitutedValue(w: Foreign, ctx: VarContext, v: Value)
    requires v.Str? || v.StrArr? || v.AnyArr?
    ensures var got := SubstituteValue(w, ctx, v);
            && (got.Some? <==> EveryVariableHasValue(ctx, Written(w, v)))
            && (got.Some? ==> if v.Str? then got.value == Str(Substitute(ctx, v.s).text)
                              else got.value == StrArr(SubstituteAll(ctx, Written(w, v))))
  {
    AvailableMeaning(ctx, Written(w, v));
    if v.AnyArr? {
      assert Written(w, v) == seq(|v.items|, i requires 0 <= i < |v.items| =>
        if v.items[i].Str? then v.items[i].s else w.sprint(v.items[i]));
    }
  }

  lemma SubstitutedTexts(ctx: VarContext, texts: seq<string>, subject: string)
    ensures MatchAny(StrArr(SubstituteAll(ctx, texts)), subject)
       <==> exists i | 0 <= i < |texts| :: Reaches(Substitute(ctx, texts[i]).text, subject)
  {
    SubstitutedListMatches(ctx, texts, subject);
    forall i | 0 <= i < |texts|
      ensures MatchPattern(Substitute(ctx, texts[i]).text, subject)
         <==> Reaches(Substitute(ctx, texts[i]).text, subject)
    {
      PatternMeaning(Substitute(ctx, texts[i]).text, subject);
    }
  }

  /** A resource field: its texts with the variables filled in, or, when one has no value or there are no
      variables, its strings as written. */
  lemma ResourceFieldMeaning(w: Foreign, v: Value, r: Resource, ctx: Option<VarContext>)
    requires v.Str? || v.StrArr? || v.AnyArr?
    ensures MatchResourceWithVariables(w, v, r, ctx) <==>
            if ctx.Some? && EveryVariableHasValue(ctx.value, Written(w, v))
            then exists i | 0 <= i < |Written(w, v)| :: Reaches(Substitute(ctx.value, Written(w, v)[i]).text, r.ARN())
            else SomeEntryReaches(v, r.ARN())
  {
    FieldMeaning(v, r.ARN());
    if ctx.Some? {
      var texts := Written(w, v);
      SubstitutedValue(w, ctx.value, v);
      SubstitutedTexts(ctx.value, texts, r.ARN());
      if v.Str? {
        PatternMeaning(Substitute(ctx.value, v.s).text, r.ARN());
        assert texts[0] == v.s;
      }
    }
  }

  // ---- Elements ----

  /** A statement without any element decides every request by its effect. */
  lemma BareStatement(w: Foreign, s: Statement, req: Request)
    requires s.principal == Nil && s.notPrincipal == Nil && s.action == Nil && s.notAction == Nil
    requires s.resource == Nil && s.notResource == Nil && s.condition == map[]
    ensures StatementDecision(w, s, req) == if s.effect == "Deny" then ExplicitDeny else Allow
  {
  }

  /** A principal that does not match, or a NotPrincipal that does, refuses; otherwise both can go.
      NotPrincipal counts only where there is no Principal. */
  lemma PrincipalElement(w: Foreign, s: Statement, req: Request)
    ensures StatementDecision(w, s, req) ==
            if s.principal != Nil && !MatchPrincipal(s.principal, req.principal) then Deny
            else if s.principal == Nil && s.notPrincipal != Nil && MatchPrincipal(s.notPrincipal, req.principal)
            then Deny
            else StatementDecision(w, s.(principal := Nil, notPrincipal := Nil), req)
  {
    assert ConditionPasses(w, s.(principal := Nil, notPrincipal := Nil), req) == ConditionPasses(w, s, req);
  }

  lemma ActionElement(w: Foreign, s: Statement, req: Request)
    ensures StatementDecision(w, s, req) ==
            if s.action != Nil && !SomeEntryReaches(s.action, req.action) then Deny
            else if s.action == Nil && s.notAction != Nil && SomeEntryReaches(s.notAction, req.action) then Deny
            else StatementDecision(w, s.(action := Nil, notAction := Nil), req)
  {
    FieldMeaning(s.action, req.action);
    FieldMeaning(s.notAction, req.action);
    assert ConditionPasses(w, s.(action := Nil, notAction := Nil), req) == ConditionPasses(w, s, req);
  }

  /** What a resource field matches is ResourceFieldMeaning's. */
  lemma ResourceElement(w: Foreign, s: Statement, req: Request)
    ensures var r, ctx := req.resource, req.varContext;
            StatementDecision(w, s, req) ==
            if s.resource != Nil && !MatchResourceWithVariables(w, s.resource, r, ctx) then Deny
            else if s.resource == Nil && s.notResource != Nil && MatchResourceWithVariables(w, s.notResource, r, ctx)
            then Deny
            else StatementDecision(w, s.(resource := Nil, notResource := Nil), req)
  {
    assert ConditionPasses(w, s.(resource := Nil, notResource := Nil), req) == ConditionPasses(w, s, req);
  }

  // ---- Conditions ----

  /** The request's own value for a condition key, None where it has none. */
  function RequestValue(w: Foreign, req: Request, key: string): Option<ContextValue> {
    if key == "aws:SecureTransport" then
      Some(BoolValue(req.conditions.Some? && req.conditions.value.secureTransport))
    else if key == "s3:content-length" then
      Some(IntValue(if req.conditions.Some? then req.conditions.value.contentLength else 0))
    else match req.varContext
      case None =>
        (match key
         case "aws:CurrentTime" => Some(TimeValue(w.now.nanos))
         case "s3:prefix" => Some(TextValue(""))
         case "s3:delimiter" => Some(TextValue(""))
         case _ => None)
      case Some(vars) =>
        match key
        case "aws:SourceIp" => if vars.sourceIP != "" then Some(IPValue(vars.sourceIP)) else None
        case "aws:CurrentTime" => if vars.currentTime.Some? then Some(TimeValue(vars.currentTime.value.nanos)) else None
        case "aws:UserAgent" => TextUnlessEmpty(vars.userAgent)
        case "aws:username" => TextUnlessEmpty(vars.username)
        case "aws:userid" => TextUnlessEmpty(vars.userID)
        case "s3:prefix" => Some(TextValue(vars.s3Prefix))
        case "s3:delimiter" => Some(TextValue(vars.s3Delimiter))
        case _ => None
  }

  function TextUnlessEmpty(s: string): Option<ContextValue> {
    if s != "" then Some(TextValue(s)) else None
  }

  /** The values a condition value stands for: its texts with the variables filled in, or, when one has no
      value or there are no variables, its items as written. */
  function Wanted(w: Foreign, req: Request, v: Value): seq<Value> {
    var texts := Written(w, v);
    if !(v.Str? || v.StrArr? || v.AnyArr?) then [v]
    else if req.varContext.Some? && EveryVariableHasValue(req.varContext.value, texts) then
      seq(|texts|, i requires 0 <= i < |texts| => Str(Substitute(req.varContext.value, texts[i]).text))
    else if v.AnyArr? then v.items
    else seq(|texts|, i requires 0 <= i < |texts| => Str(texts[i]))
  }

  /** The request has a value for the key, and it compares with some wanted value. */
  predicate KeyMatches(w: Foreign, req: Request, op: string, key: string, v: Value) {
    && RequestValue(w, req, key).Some?
    && exists i | 0 <= i < |Wanted(w, req, v)| ::
         w.compare(op, RequestValue(w, req, key).value, Wanted(w, req, v)[i]) == Match
  }

  predicate ConditionMet(w: Foreign, req: Request, condition: map<string, Value>) {
    forall op | op in condition ::
      condition[op].Map? && forall key | key in condition[op].fields ::
        KeyMatches(w, req, op, key, condition[op].fields[key])
  }

  lemma RequestValueRead(w: Foreign, req: Request, key: string)
    ensures GetContextValue(ConditionContextOf(w, req), key) == RequestValue(w, req, key)
  {
  }

  lemma SingleConditionMeaning(w: Foreign, req: Request, op: string, key: string, v: Value)
    ensures SingleCondition(w, ConditionContextOf(w, req), op, key, v) == Match <==> KeyMatches(w, req, op, key, v)
  {
    RequestValueRead(w, req, key);
    if RequestValue(w, req, key).Some? {
      WantedMeaning(w, req, op, RequestValue(w, req, key).value, v);
    }
  }

  /** The comparisons of one key, however its value is written. */
  function Compared(w: Foreign, op: string, actual: ContextValue, wanted: Value): Outcome {
    match wanted
    case AnyArr(items) => if exists item | item in items :: w.compare(op, actual, item) == Match then Match else NoMatch
    case StrArr(strs) => if exists s | s in strs :: w.compare(op, actual, Str(s)) == Match then Match else NoMatch
    case _ => w.compare(op, actual, wanted)
  }

  /** The value as the evaluator sees it after substitution. */
  function Seen(w: Foreign, req: Request, v: Value): Value {
    var subst := if req.varContext.Some? then SubstituteValue(w, req.varContext.value, v) else None;
    if subst.Some? then subst.value else v
  }

  lemma SeenIsWanted(w: Foreign, req: Request, v: Value)
    ensures var seen, wanted := Seen(w, req, v), Wanted(w, req, v);
            match seen
            case StrArr(strs) => |wanted| == |strs| && forall i | 0 <= i < |strs| :: wanted[i] == Str(strs[i])
            case AnyArr(items) => wanted == items
            case _ => wanted == [seen]
  {
    if (v.Str? || v.StrArr? || v.AnyArr?) && req.varContext.Some? {
      SubstitutedValue(w, req.varContext.value, v);
    }
  }

  lemma WantedMeaning(w: Foreign, req: Request, op: string, actual: ContextValue, v: Value)
    ensures Compared(w, op, actual, Seen(w, req, v)) == Match <==>
            exists i | 0 <= i < |Wanted(w, req, v)| :: w.compare(op, actual, Wanted(w, req, v)[i]) == Match
  {
    SeenIsWanted(w, req, v);
    var wanted := Wanted(w, req, v);
    match Seen(w, req, v) {
      case StrArr(strs) =>
        if i :| 0 <= i < |wanted| && w.compare(op, actual, wanted[i]) == Match {
          assert strs[i] in strs;
        }
        if s :| s in strs && w.compare(op, actual, Str(s)) == Match {
          var i :| 0 <= i < |strs| && strs[i] == s;
          assert wanted[i] == Str(s);
        }
      case AnyArr(items) =>
      case _ => assert |wanted| == 1 && wanted[0] == Seen(w, req, v);
    }
  }

  /** A condition refuses the request if one operator block is no map, or one of its keys has no value in the
      request or compares with none of the wanted values; otherwise it can go. Errors never help a request. */
  lemma ConditionElement(w: Foreign, s: Statement, req: Request)
    ensures StatementDecision(w, s, req) ==
            if ConditionMet(w, req, s.condition) then StatementDecision(w, s.(condition := map[]), req) else Deny
  {
    forall op, key | op in s.condition && s.condition[op].Map? && key in s.condition[op].fields
      ensures SingleCondition(w, ConditionContextOf(w, req), op, key, s.condition[op].fields[key]) == Match
         <==> KeyMatches(w, req, op, key, s.condition[op].fields[key])
    {
      SingleConditionMeaning(w, req, op, key, s.condition[op].fields[key]);
    }
  }

  /** A statement restricted to an address range, for a request made with variables: it decides nothing when
      the client's address is unknown, lies outside or cannot be compared, and as without the restriction
      otherwise. That holds whatever its effect, so an unknown address also lifts a denial. */
  lemma AddressRestriction(w: Foreign, s: Statement, range: string, req: Request)
    requires '$' !in range && req.varContext.Some?
    ensures var ip := req.varContext.value.sourceIP;
            StatementDecision(w, s.(condition := map["IpAddress" := Map(map["aws:SourceIp" := Str(range)])]), req) ==
            if ip != "" && w.compare("IpAddress", IPValue(ip), Str(range)) == Match
            then StatementDecision(w, s.(condition := map[]), req) else Deny
  {
    var block := map["aws:SourceIp" := Str(range)];
    var restricted := s.(condition := map["IpAddress" := Map(block)]);
    ConditionElement(w, restricted, req);
    SubstituteIdentity(req.varContext.value, range);
    assert Written(w, Str(range))[0] == range;
    assert Wanted(w, req, Str(range)) == [Str(range)];
    assert ConditionMet(w, req, restricted.condition) <==> KeyMatches(w, req, "IpAddress", "aws:SourceIp", Str(range))
    by {
      assert "IpAddress" in restricted.condition && restricted.condition["IpAddress"].Map?;
      assert "aws:SourceIp" in restricted.condition["IpAddress"].fields;
    }
    assert restricted.(condition := map[]) == s.(condition := map[]);
  }
}
