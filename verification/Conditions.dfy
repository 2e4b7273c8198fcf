/** The condition evaluator: AND over operators, AND over keys, OR over listed values. */
module Conditions {
  import opened GoStrings
  import opened PolicyTypes
  import opened Variables

  datatype EvalContext = EvalContext(
    varContext: Option<VarContext>,
    secureTransport: bool,
    contentLength: int,
    now: Instant)

  /** Evaluator.getContextValue over the context that conditions.Build assembles. */
  function GetContextValue(ctx: EvalContext, key: string): Option<ContextValue> {
    var vars := if ctx.varContext.Some? then ctx.varContext.value
                else VarContext("", "", "", Some(ctx.now), "", "", "");
    if key == "aws:SourceIp" then (if vars.sourceIP == "" then None else Some(IPValue(vars.sourceIP)))
    else if key == "aws:UserAgent" then (if vars.userAgent == "" then None else Some(TextValue(vars.userAgent)))
    else if key == "aws:SecureTransport" then Some(BoolValue(ctx.secureTransport))
    else if key == "aws:CurrentTime" then
      (match vars.currentTime case Some(t) => Some(TimeValue(t.nanos)) case None => None)
    else if key == "aws:username" then (if vars.username == "" then None else Some(TextValue(vars.username)))
    else if key == "aws:userid" then (if vars.userID == "" then None else Some(TextValue(vars.userID)))
    else if key == "s3:prefix" then Some(TextValue(vars.s3Prefix))
    else if key == "s3:delimiter" then Some(TextValue(vars.s3Delimiter))
    else if key == "s3:content-length" then Some(IntValue(ctx.contentLength))
    else None
  }

  /** A name is available as a condition key exactly when it is as a variable. Names of text have the same
      text both ways; an address and an instant are typed values as keys, and the text of an instant as a
      variable is coarser. The two keys that are no variables are the transport flag and the length. */
  lemma KeysAgreeWithVariables(ctx: EvalContext, name: string)
    requires ctx.varContext.Some?
    requires name != "aws:SecureTransport" && name != "s3:content-length"
    ensures GetContextValue(ctx, name).Some? <==> GetValue(ctx.varContext.value, name).Some?
    ensures GetContextValue(ctx, name).Some? && name != "aws:SourceIp" && name != "aws:CurrentTime" ==>
            GetContextValue(ctx, name) == Some(TextValue(GetValue(ctx.varContext.value, name).value))
  {
  }

  /** Evaluator.evaluateSingleCondition. In a list, values that fail to compare are skipped. */
  function SingleCondition(w: Foreign, ctx: EvalContext, op: string, key: string, value: Value): Outcome {
    match GetContextValue(ctx, key)
    case None => Failed
    case Some(actual) =>
      var subst := if ctx.varContext.Some? then SubstituteValue(w, ctx.varContext.value, value) else None;
      var wanted := if subst.Some? then subst.value else value;
      match wanted
      case AnyArr(items) =>
        if exists item | item in items :: w.compare(op, actual, item) == Match then Match else NoMatch
      case StrArr(strs) =>
        if exists s | s in strs :: w.compare(op, actual, Str(s)) == Match then Match else NoMatch
      case _ => w.compare(op, actual, wanted)
  }

  /** Every key of one operator block matches. */
  predicate OperatorHolds(w: Foreign, ctx: EvalContext, op: string, block: Value) {
    block.Map? && forall key | key in block.fields :: SingleCondition(w, ctx, op, key, block.fields[key]) == Match
  }

  /** Every operator block of the condition holds. */
  predicate ConditionHolds(w: Foreign, ctx: EvalContext, condition: map<string, Value>) {
    forall op | op in condition :: OperatorHolds(w, ctx, op, condition[op])
  }

  /** Evaluator.evaluateOperator. Go visits a map in an unspecified order and stops at the first
      failing key, so which of NoMatch and Failed comes back may vary; Match may not. */
  method EvaluateOperator(w: Foreign, ctx: EvalContext, op: string, block: Value) returns (r: Outcome)
    ensures r == Match <==> OperatorHolds(w, ctx, op, block)
  {
    if !block.Map? {
      return Failed;
    }
    var pending := block.fields.Keys;
    while pending != {}
      invariant pending <= block.fields.Keys
      invariant forall key | key in block.fields.Keys - pending ::
        SingleCondition(w, ctx, op, key, block.fields[key]) == Match
      decreases |pending|
    {
      var key :| key in pending;
      var one := SingleCondition(w, ctx, op, key, block.fields[key]);
      if one != Match {
        return one;
      }
      pending := pending - {key};
    }
    return Match;
  }

  /** Evaluator.Evaluate, again in an unspecified map order. */
  method Evaluate(w: Foreign, ctx: EvalContext, condition: map<string, Value>) returns (r: Outcome)
    ensures r == Match <==> ConditionHolds(w, ctx, condition)
  {
    var pending := condition.Keys;
    while pending != {}
      invariant pending <= condition.Keys
      invariant forall op | op in condition.Keys - pending :: OperatorHolds(w, ctx, op, condition[op])
      decreases |pending|
    {
      var op :| op in pending;
      var one := EvaluateOperator(w, ctx, op, condition[op]);
      if one != Match {
        return one;
      }
      pending := pending - {op};
    }
    return Match;
  }
}
