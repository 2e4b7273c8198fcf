/** Statement matching: does one policy statement apply to one request, and with which effect. */
module Matcher {
  import opened GoStrings
  import opened PolicyTypes
  import opened Variables
  import Conditions

  /** matchSingleAction and matchSingleResource, which share one body. */
  predicate MatchPattern(pattern: string, subject: string) {
    || pattern == subject
    || pattern == "*"
    || (HasSuffix(pattern, "*") && HasPrefix(subject, TrimSuffix(pattern, "*")))
  }

  /** The dispatch of matchAction and matchResource over a dynamically typed field. */
  predicate MatchAny(v: Value, subject: string) {
    match v
    case Str(s) => MatchPattern(s, subject)
    case AnyArr(items) => exists item | item in items :: item.Str? && MatchPattern(item.s, subject)
    case StrArr(strs) => exists s | s in strs :: MatchPattern(s, subject)
    case _ => false
  }

  predicate MatchAction(v: Value, action: string) {
    MatchAny(v, action)
  }

  predicate MatchResource(v: Value, resource: Resource) {
    MatchAny(v, resource.ARN())
  }

  /** matchResourceWithVariables: a failed substitution falls back to the pattern as written. */
  predicate MatchResourceWithVariables(w: Foreign, v: Value, resource: Resource, ctx: Option<VarContext>) {
    if ctx.None? then MatchResource(v, resource)
    else match SubstituteValue(w, ctx.value, v)
      case None => MatchResource(v, resource)
      case Some(substituted) => MatchResource(substituted, resource)
  }

  predicate MatchUserARN(arn: string, p: Principal) {
    if p.isAnonymous || p.user.None? then false
    else if HasPrefix(arn, "arn:aws:iam::") && Contains(arn, ":user/") then
      var parts := Split(arn, ":user/");
      |parts| == 2 && p.user.value.accessKey == parts[1]
    else false
  }

  predicate MatchAWSPrincipal(aws: Value, p: Principal) {
    match aws
    case Str(s) => s == "*" || MatchUserARN(s, p)
    case AnyArr(items) => exists item | item in items :: item.Str? && (item.s == "*" || MatchUserARN(item.s, p))
    case StrArr(strs) => exists s | s in strs :: s == "*" || MatchUserARN(s, p)
    case _ => false
  }

  predicate MatchPrincipal(v: Value, p: Principal) {
    match v
    case Str(s) => s == "*"
    case Map(fields) => "AWS" in fields && MatchAWSPrincipal(fields["AWS"], p)
    case _ => false
  }

  predicate PrincipalPasses(stmt: Statement, p: Principal) {
    if stmt.principal != Nil then MatchPrincipal(stmt.principal, p)
    else if stmt.notPrincipal != Nil then !MatchPrincipal(stmt.notPrincipal, p)
    else true
  }

  predicate ActionPasses(stmt: Statement, action: string) {
    if stmt.action != Nil then MatchAction(stmt.action, action)
    else if stmt.notAction != Nil then !MatchAction(stmt.notAction, action)
    else true
  }

  predicate ResourcePasses(w: Foreign, stmt: Statement, resource: Resource, ctx: Option<VarContext>) {
    if stmt.resource != Nil then MatchResourceWithVariables(w, stmt.resource, resource, ctx)
    else if stmt.notResource != Nil then !MatchResourceWithVariables(w, stmt.notResource, resource, ctx)
    else true
  }

  function ConditionContextOf(w: Foreign, req: Request): Conditions.EvalContext {
    match req.conditions
    case None => Conditions.EvalContext(req.varContext, false, 0, w.now)
    case Some(c) => Conditions.EvalContext(req.varContext, c.secureTransport, c.contentLength, w.now)
  }

  predicate ConditionPasses(w: Foreign, stmt: Statement, req: Request) {
    Conditions.ConditionHolds(w, ConditionContextOf(w, req), stmt.condition)
  }

  /** The statement applies to the request. */
  predicate Applies(w: Foreign, stmt: Statement, req: Request) {
    && PrincipalPasses(stmt, req.principal)
    && ActionPasses(stmt, req.action)
    && ResourcePasses(w, stmt, req.resource, req.varContext)
    && ConditionPasses(w, stmt, req)
  }

  function StatementDecision(w: Foreign, stmt: Statement, req: Request): Decision {
    if !Applies(w, stmt, req) then Deny
    else if stmt.effect == "Deny" then ExplicitDeny
    else Allow
  }

  /** evaluateStatement, check by check. The condition evaluator visits its maps in any order and
      may report an error or a plain mismatch; neither can change the decision. */
  method EvaluateStatement(w: Foreign, stmt: Statement, req: Request) returns (d: Decision)
    ensures d == StatementDecision(w, stmt, req)
  {
    if stmt.principal != Nil {
      if !MatchPrincipal(stmt.principal, req.principal) {
        return Deny;
      }
    } else if stmt.notPrincipal != Nil {
      if MatchPrincipal(stmt.notPrincipal, req.principal) {
        return Deny;
      }
    }
    if stmt.action != Nil {
      if !MatchAction(stmt.action, req.action) {
        return Deny;
      }
    } else if stmt.notAction != Nil {
      if MatchAction(stmt.notAction, req.action) {
        return Deny;
      }
    }
    if stmt.resource != Nil {
      if !MatchResourceWithVariables(w, stmt.resource, req.resource, req.varContext) {
        return Deny;
      }
    } else if stmt.notResource != Nil {
      if MatchResourceWithVariables(w, stmt.notResource, req.resource, req.varContext) {
        return Deny;
      }
    }
    if |stmt.condition| > 0 {
      var r := Conditions.Evaluate(w, ConditionContextOf(w, req), stmt.condition);
      if r != Match {
        return Deny;
      }
    }
    if stmt.effect == "Deny" {
      return ExplicitDeny;
    }
    return Allow;
  }
}
