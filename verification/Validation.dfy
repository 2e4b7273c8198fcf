/** The two structural validators, normalisation, and what validation buys the matcher. */
module Validation {
  import opened GoStrings
  import opened PolicyTypes
  import opened Matcher

  /** Why a value is refused, with the first offending array index. */
  datatype Issue = EmptyString | EmptyArray | EmptyItem(at: nat) | NotString(at: nat) | Unsupported

  // ---- internal/policy: ValidateAction and ValidateResource, which share one body ----

  function CheckStrings(strs: seq<string>, i: nat): Option<Issue>
    requires i <= |strs|
    decreases |strs| - i
  {
    if i == |strs| then None
    else if strs[i] == "" then Some(EmptyItem(i))
    else CheckStrings(strs, i + 1)
  }

  function CheckItems(items: seq<Value>, i: nat): Option<Issue>
    requires i <= |items|
    decreases |items| - i
  {
    if i == |items| then None
    else if !items[i].Str? then Some(NotString(i))
    else if items[i].s == "" then Some(EmptyItem(i))
    else CheckItems(items, i + 1)
  }

  function ValidateField(v: Value): Option<Issue> {
    match v
    case Nil => None
    case Str(s) => if s == "" then Some(EmptyString) else None
    case StrArr(strs) => if |strs| == 0 then Some(EmptyArray) else CheckStrings(strs, 0)
    case AnyArr(items) => if |items| == 0 then Some(EmptyArray) else CheckItems(items, 0)
    case _ => Some(Unsupported)
  }

  // ---- sdk/iam: validatePolicyValue ----

  function CheckPolicyItems(items: seq<Value>, i: nat, principalField: bool): Option<Issue>
    requires i <= |items|
    decreases |items| - i
  {
    if i == |items| then None
    else if items[i].Str? then
      if items[i].s == "" then Some(EmptyItem(i)) else CheckPolicyItems(items, i + 1, principalField)
    else if !principalField then Some(NotString(i))
    else CheckPolicyItems(items, i + 1, principalField)
  }

  /** `principalField` is true for Principal and NotPrincipal. */
  function ValidatePolicyValue(v: Value, principalField: bool): Option<Issue> {
    match v
    case Nil => None
    case Str(s) => if s == "" then Some(EmptyString) else None
    case StrArr(strs) => if |strs| == 0 then Some(EmptyArray) else CheckStrings(strs, 0)
    case AnyArr(items) => if |items| == 0 then Some(EmptyArray) else CheckPolicyItems(items, 0, principalField)
    case Map(fields) =>
      if !principalField then Some(Unsupported)
      else if |fields| == 0 then Some(EmptyArray)
      else None
    case Other(_) => Some(Unsupported)
  }

  predicate ValidateStatement(s: Statement) {
    && (s.effect == "Allow" || s.effect == "Deny")
    && (s.action != Nil || s.notAction != Nil)
    && (s.resource != Nil || s.notResource != Nil)
    && !(s.action != Nil && s.notAction != Nil)
    && !(s.resource != Nil && s.notResource != Nil)
    && !(s.principal != Nil && s.notPrincipal != Nil)
    && ValidatePolicyValue(s.principal, true).None? && ValidatePolicyValue(s.notPrincipal, true).None?
    && ValidatePolicyValue(s.action, false).None? && ValidatePolicyValue(s.notAction, false).None?
    && ValidatePolicyValue(s.resource, false).None? && ValidatePolicyValue(s.notResource, false).None?
  }

  lemma {:induction false} ItemChecksAgree(items: seq<Value>, i: nat)
    requires i <= |items|
    ensures CheckPolicyItems(items, i, false) == CheckItems(items, i)
    ensures CheckItems(items, i).None? <==> forall j | i <= j < |items| :: items[j].Str? && items[j].s != ""
    decreases |items| - i
  {
    if i < |items| {
      ItemChecksAgree(items, i + 1);
    }
  }

  lemma {:induction false} StringChecksMean(strs: seq<string>, i: nat)
    requires i <= |strs|
    ensures CheckStrings(strs, i).None? <==> forall j | i <= j < |strs| :: strs[j] != ""
    decreases |strs| - i
  {
    if i < |strs| {
      StringChecksMean(strs, i + 1);
    }
  }

  /** Both validators accept the same Action and Resource values and blame the same array item. */
  lemma ValidatorsAgree(v: Value)
    ensures ValidatePolicyValue(v, false) == ValidateField(v)
  {
    if v.AnyArr? {
      ItemChecksAgree(v.items, 0);
    }
  }

  predicate AllNonEmpty(strs: seq<string>) {
    |strs| > 0 && forall i | 0 <= i < |strs| :: strs[i] != ""
  }

  /** An Action or Resource value is accepted iff it is absent, a string that is not empty, or an array, of
      either form, of at least one string and no empty one. */
  lemma AcceptedExactly(v: Value)
    ensures ValidateField(v).None? <==>
            match v
            case Nil => true
            case Str(s) => s != ""
            case StrArr(strs) => AllNonEmpty(strs)
            case AnyArr(items) => |items| > 0 && forall i | 0 <= i < |items| :: items[i].Str? && items[i].s != ""
            case _ => false
  {
    if v.AnyArr? {
      ItemChecksAgree(v.items, 0);
    } else if v.StrArr? {
      StringChecksMean(v.strs, 0);
    }
  }

  predicate GoodItem(v: Value) {
    v.Str? && v.s != ""
  }

  /** A refused array is blamed on its first bad item, for the right reason. */
  lemma {:induction false} FirstBadItem(items: seq<Value>, i: nat, at: nat)
    requires i <= at < |items| && !GoodItem(items[at]) && forall j | i <= j < at :: GoodItem(items[j])
    ensures CheckItems(items, i) == Some(if items[at].Str? then EmptyItem(at) else NotString(at))
    decreases at - i
  {
    if i < at {
      FirstBadItem(items, i + 1, at);
    }
  }

  lemma {:induction false} FirstEmptyString(strs: seq<string>, i: nat, at: nat)
    requires i <= at < |strs| && strs[at] == "" && forall j | i <= j < at :: strs[j] != ""
    ensures CheckStrings(strs, i) == Some(EmptyItem(at))
    decreases at - i
  {
    if i < at {
      FirstEmptyString(strs, i + 1, at);
    }
  }

  lemma BlamesFirst(items: seq<Value>, strs: seq<string>, at: nat)
    ensures at < |items| && !GoodItem(items[at]) && (forall j | 0 <= j < at :: GoodItem(items[j])) ==>
            ValidateField(AnyArr(items)) == Some(if items[at].Str? then EmptyItem(at) else NotString(at))
    ensures at < |strs| && strs[at] == "" && (forall j | 0 <= j < at :: strs[j] != "") ==>
            ValidateField(StrArr(strs)) == Some(EmptyItem(at))
  {
    if at < |items| && !GoodItem(items[at]) && forall j | 0 <= j < at :: GoodItem(items[j]) {
      FirstBadItem(items, 0, at);
    }
    if at < |strs| && strs[at] == "" && forall j | 0 <= j < at :: strs[j] != "" {
      FirstEmptyString(strs, 0, at);
    }
  }

  /** A principal value is accepted iff it is absent, any map but the empty one, or a string or array without
      empty strings; items of another type are let through. */
  lemma {:induction false} PrincipalItemsAccepted(items: seq<Value>, i: nat)
    requires i <= |items|
    ensures CheckPolicyItems(items, i, true).None? <==> forall j | i <= j < |items| :: items[j] != Str("")
    decreases |items| - i
  {
    if i < |items| {
      PrincipalItemsAccepted(items, i + 1);
    }
  }

  predicate AcceptedPrincipal(v: Value) {
    match v
    case Nil => true
    case Str(s) => s != ""
    case StrArr(strs) => AllNonEmpty(strs)
    case AnyArr(items) => |items| > 0 && forall i | 0 <= i < |items| :: items[i] != Str("")
    case Map(fields) => fields != map[]
    case Other(_) => false
  }

  lemma PrincipalAcceptedExactly(v: Value)
    ensures ValidatePolicyValue(v, true).None? <==> AcceptedPrincipal(v)
  {
    match v {
      case AnyArr(items) => PrincipalItemsAccepted(items, 0);
      case StrArr(strs) => StringChecksMean(strs, 0);
      case _ =>
    }
  }

  /** A statement is valid iff its effect is one of the two words, exactly one of Action and NotAction and exactly
      one of Resource and NotResource is there, at most one of Principal and NotPrincipal, and each is accepted. */
  lemma ValidExactly(s: Statement)
    ensures ValidateStatement(s) <==>
            && s.effect in ["Allow", "Deny"]
            && (s.action == Nil) != (s.notAction == Nil) && (s.resource == Nil) != (s.notResource == Nil)
            && (s.principal == Nil || s.notPrincipal == Nil)
            && AcceptedPrincipal(s.principal) && AcceptedPrincipal(s.notPrincipal)
            && (forall v | v in [s.action, s.notAction, s.resource, s.notResource] :: ValidateField(v).None?)
  {
    PrincipalAcceptedExactly(s.principal);
    PrincipalAcceptedExactly(s.notPrincipal);
    forall v ensures ValidatePolicyValue(v, false) == ValidateField(v) {
      ValidatorsAgree(v);
    }
    var values := [s.action, s.notAction, s.resource, s.notResource];
    assert values[0] in values && values[1] in values && values[2] in values && values[3] in values;
  }

  // ---- Normalisation ----

  /** The strings of a string-like value, None where the value has another shape. */
  function Normalized(v: Value): Option<seq<string>> {
    match v
    case Str(s) => Some([s])
    case StrArr(strs) => Some(strs)
    case AnyArr(items) =>
      if forall item | item in items :: item.Str?
      then Some(seq(|items|, i requires 0 <= i < |items| => assert items[i] in items; items[i].s))
      else None
    case _ => None
  }

  /** NormalizeAction and NormalizeResource: the slice is allocated at full length and filled. */
  method Normalize(v: Value) returns (r: Result<seq<string>>)
    ensures r.Ok? <==> Normalized(v).Some?
    ensures r.Ok? ==> r.value == Normalized(v).value
  {
    match v
    case Nil => return Err("cannot be nil");
    case Str(s) => return Ok([s]);
    case StrArr(strs) => return Ok(strs);
    case AnyArr(items) =>
      var result := new string[|items|];
      for i := 0 to |items|
        invariant forall j | 0 <= j < i :: items[j].Str? && result[j] == items[j].s
      {
        if !items[i].Str? {
          assert items[i] in items;
          return Err("array item must be string");
        }
        result[i] := items[i].s;
      }
      assert result[..] == Normalized(v).value;
      return Ok(result[..]);
    case _ => return Err("must be string or array");
  }

  /** Every form of a list of strings normalises to that list; anything that is no string or list of strings is
      refused. */
  lemma NormalizedExactly(v: Value, strs: seq<string>)
    ensures Normalized(v) == Some(strs) <==>
            || v == StrArr(strs)
            || (|strs| == 1 && v == Str(strs[0]))
            || (v.AnyArr? && |v.items| == |strs| && forall i | 0 <= i < |strs| :: v.items[i] == Str(strs[i]))
  {
    if v.AnyArr? && Normalized(v).Some? {
      assert forall i | 0 <= i < |v.items| :: v.items[i] in v.items && v.items[i] == Str(Normalized(v).value[i]);
    }
    if v.AnyArr? && |v.items| == |strs| && forall i | 0 <= i < |strs| :: v.items[i] == Str(strs[i]) {
      assert forall item | item in v.items :: item.Str?;
      assert Normalized(v).value == strs;
    }
    if v.Str? && |strs| == 1 && v.s == strs[0] {
      assert [v.s] == strs;
    }
  }

  /** On every accepted value but nil, normalising succeeds with a non-empty list of non-empty
      patterns, and the raw value matches a subject iff one of those patterns does. */
  lemma NormalizedMatches(v: Value, subject: string)
    requires v != Nil && ValidateField(v).None?
    ensures Normalized(v).Some?
    ensures var patterns := Normalized(v).value;
            && |patterns| > 0
            && (forall i | 0 <= i < |patterns| :: patterns[i] != "")
            && (MatchAny(v, subject) <==> exists i | 0 <= i < |patterns| :: MatchPattern(patterns[i], subject))
  {
    match v
    case Str(s) => assert Normalized(v).value[0] == s;
    case StrArr(strs) => StringChecksMean(strs, 0);
    case AnyArr(items) =>
      ItemChecksAgree(items, 0);
      var patterns := Normalized(v).value;
      assert forall i | 0 <= i < |items| :: patterns[i] == items[i].s;
  }

  /** A JSON array and a Go string slice with the same strings mean the same resources, with or
      without variables. */
  lemma ArrayFormsAlike(w: Foreign, items: seq<Value>, r: Resource, ctx: Option<VarContext>)
    requires forall item | item in items :: item.Str?
    ensures MatchResourceWithVariables(w, AnyArr(items), r, ctx)
       <==> MatchResourceWithVariables(w, StrArr(Normalized(AnyArr(items)).value), r, ctx)
  {
    var strs := Normalized(AnyArr(items)).value;
    assert forall i | 0 <= i < |items| :: items[i] in items && strs[i] == items[i].s;
    if item :| item in items && MatchPattern(item.s, r.ARN()) {
      assert item.s in strs;
    }
    if s :| s in strs && MatchPattern(s, r.ARN()) {
      assert Str(s) in items;
    }
    if ctx.Some? {
      assert strs == seq(|items|, i requires 0 <= i < |items| =>
        if items[i].Str? then items[i].s else w.sprint(items[i]));
    }
  }

  // ---- NotAction and NotResource ----

  /** Everything but the action check passes. */
  predicate PassesBesideAction(w: Foreign, s: Statement, req: Request) {
    && PrincipalPasses(s, req.principal)
    && ResourcePasses(w, s, req.resource, req.varContext)
    && ConditionPasses(w, s, req)
  }

  predicate PassesBesideResource(w: Foreign, s: Statement, req: Request) {
    && PrincipalPasses(s, req.principal)
    && ActionPasses(s, req.action)
    && ConditionPasses(w, s, req)
  }

  function NegateAction(s: Statement): Statement {
    s.(action := s.notAction, notAction := s.action)
  }

  function NegateResource(s: Statement): Statement {
    s.(resource := s.notResource, notResource := s.resource)
  }

  /** Swapping Action with NotAction (or Resource with NotResource) keeps a statement valid and splits
      the requests that pass the other checks into two complementary halves. */
  lemma NegationComplements(w: Foreign, s: Statement, req: Request)
    requires ValidateStatement(s)
    ensures ValidateStatement(NegateAction(s)) && ValidateStatement(NegateResource(s))
    ensures Applies(w, s, req) || Applies(w, NegateAction(s), req) <==> PassesBesideAction(w, s, req)
    ensures Applies(w, s, req) || Applies(w, NegateResource(s), req) <==> PassesBesideResource(w, s, req)
    ensures !(Applies(w, s, req) && Applies(w, NegateAction(s), req))
    ensures !(Applies(w, s, req) && Applies(w, NegateResource(s), req))
  {
  }
}
