/** Policy variables: `${name}` substitution in resource patterns and condition values. */
module Variables {
  import opened GoStrings
  import opened PolicyTypes

  function NonEmpty(s: string): Option<string> {
    if s == "" then None else Some(s)
  }

  /** Context.getValue: the value of a variable, None when unknown or not available. */
  function GetValue(ctx: VarContext, name: string): Option<string> {
    if name == "aws:username" then NonEmpty(ctx.username)
    else if name == "aws:userid" then NonEmpty(ctx.userID)
    else if name == "aws:SourceIp" then NonEmpty(ctx.sourceIP)
    else if name == "aws:CurrentTime" then (match ctx.currentTime case Some(t) => Some(t.text) case None => None)
    else if name == "aws:UserAgent" then NonEmpty(ctx.userAgent)
    else if name == "s3:prefix" then Some(ctx.s3Prefix)
    else if name == "s3:delimiter" then Some(ctx.s3Delimiter)
    else None
  }

  /** A substituted text, and whether every variable in it had a value. */
  datatype Substituted = Substituted(text: string, ok: bool)

  /** The length of the variable name when `input` starts with a match of `\$\{([^}]+)\}`. */
  function VariableAtHead(input: string): (len: Option<nat>)
    ensures len.Some? ==> len.value >= 1 && |input| >= 3 + len.value && input[0] == '$'
  {
    if |input| >= 2 && input[0] == '$' && input[1] == '{' then
      var close := Index(input[2..], "}");
      if close.Some? && close.value >= 1 then close else None
    else None
  }

  /** Context.Substitute: left-most, non-overlapping variables are replaced; one without a value
      is left as written and reported. */
  function Substitute(ctx: VarContext, input: string): Substituted
    decreases |input|
  {
    if input == "" then Substituted("", true)
    else match VariableAtHead(input)
      case Some(len) =>
        var rest := Substitute(ctx, input[3 + len..]);
        (match GetValue(ctx, input[2..2 + len])
         case Some(v) => Substituted(v + rest.text, rest.ok)
         case None => Substituted(input[..3 + len] + rest.text, false))
      case None =>
        var rest := Substitute(ctx, input[1..]);
        Substituted([input[0]] + rest.text, rest.ok)
  }

  function SubstituteAll(ctx: VarContext, inputs: seq<string>): seq<string> {
    seq(|inputs|, i requires 0 <= i < |inputs| => Substitute(ctx, inputs[i]).text)
  }

  predicate AllAvailable(ctx: VarContext, inputs: seq<string>) {
    forall s | s in inputs :: Substitute(ctx, s).ok
  }

  /** Context.SubstituteInterface: None is the error result. */
  function SubstituteValue(w: Foreign, ctx: VarContext, v: Value): Option<Value> {
    match v
    case Str(s) =>
      var r := Substitute(ctx, s);
      if r.ok then Some(Str(r.text)) else None
    case StrArr(strs) =>
      if AllAvailable(ctx, strs) then Some(StrArr(SubstituteAll(ctx, strs))) else None
    case AnyArr(items) =>
      var strs := seq(|items|, i requires 0 <= i < |items| =>
        if items[i].Str? then items[i].s else w.sprint(items[i]));
      if AllAvailable(ctx, strs) then Some(StrArr(SubstituteAll(ctx, strs))) else None
    case _ => Some(v)
  }

  /** Text without `$` passes through unchanged. */
  lemma {:induction false} SubstituteIdentity(ctx: VarContext, s: string)
    requires '$' !in s
    ensures Substitute(ctx, s) == Substituted(s, true)
  {
    if s != "" {
      assert s[0] != '$';
      SubstituteIdentity(ctx, s[1..]);
      assert s == [s[0]] + s[1..];
    }
  }

  function Reference(name: string): string {
    "${" + name + "}"
  }

  lemma ReferenceAtHead(name: string, post: string)
    requires '}' !in name && name != ""
    ensures VariableAtHead(Reference(name) + post) == Some(|name|)
  {
    var s := Reference(name) + post;
    assert s[2..] == name + ['}'] + post;
    IndexAfter(name, '}', post);
  }

  lemma ReferenceSlices(name: string, post: string)
    ensures var s := Reference(name) + post;
            && |s| >= 3 + |name|
            && s[2..2 + |name|] == name && s[3 + |name|..] == post && s[..3 + |name|] == Reference(name)
  {
  }

  lemma SubstituteReference(ctx: VarContext, name: string, post: string)
    requires '}' !in name && name != ""
    ensures Substitute(ctx, Reference(name) + post) == AfterReference(ctx, name, Substitute(ctx, post))
  {
    ReferenceAtHead(name, post);
    ReferenceSlices(name, post);
  }

  /** What a reference followed by `rest` becomes. */
  function AfterReference(ctx: VarContext, name: string, rest: Substituted): Substituted {
    match GetValue(ctx, name)
    case Some(v) => Substituted(v + rest.text, rest.ok)
    case None => Substituted(Reference(name) + rest.text, false)
  }

  /** Substitution acts on each variable in place: what is around it is substituted on its own,
      and the value itself is not scanned again. */
  lemma {:induction false} SubstituteAtVariable(ctx: VarContext, pre: string, name: string, post: string)
    requires '$' !in pre && '}' !in name && name != ""
    ensures var rest := AfterReference(ctx, name, Substitute(ctx, post));
            Substitute(ctx, pre + (Reference(name) + post)) == Substituted(pre + rest.text, rest.ok)
  {
    SubstituteReference(ctx, name, post);
    SubstituteAfterPlain(ctx, pre, Reference(name) + post);
  }

  /** One plain character in front. */
  lemma SubstituteOne(ctx: VarContext, s: string)
    requires s != "" && s[0] != '$'
    ensures var r := Substitute(ctx, s[1..]);
            Substitute(ctx, s) == Substituted([s[0]] + r.text, r.ok)
  {
    assert VariableAtHead(s).None?;
  }

  /** One character in front that starts no reference. */
  lemma OneKept(ctx: VarContext, c: char, rest: string)
    requires VariableAtHead([c] + rest).None?
    ensures var r := Substitute(ctx, rest);
            Substitute(ctx, [c] + rest) == Substituted([c] + r.text, r.ok)
  {
    assert ([c] + rest)[1..] == rest;
  }

  /** What is no reference stays: a dollar sign without a brace after it, */
  lemma BareDollar(ctx: VarContext, post: string)
    requires !("{" <= post)
    ensures var r := Substitute(ctx, post);
            Substitute(ctx, "$" + post) == Substituted("$" + r.text, r.ok)
  {
    assert ("$" + post)[1..] == post;
    OneKept(ctx, '$', post);
  }

  lemma NoNameAtHead(post: string)
    ensures VariableAtHead("${}" + post).None?
  {
    var s := "${}" + post;
    assert s[2..] == "}" + post;
    assert "}" <= s[2..];
  }

  /** an empty name, */
  lemma EmptyName(ctx: VarContext, post: string)
    ensures var r := Substitute(ctx, post);
            Substitute(ctx, "${}" + post) == Substituted("${}" + r.text, r.ok)
  {
    NoNameAtHead(post);
    Join("${}", "{}", post);
    OneKept(ctx, '$', "{}" + post);
    PlainBraces(ctx, post);
    Join("${}", "{}", Substitute(ctx, post).text);
  }

  lemma PlainBraces(ctx: VarContext, post: string)
    ensures var r := Substitute(ctx, post);
            Substitute(ctx, "{}" + post) == Substituted("{}" + r.text, r.ok)
  {
    SubstituteAfterPlain(ctx, "{}", post);
  }

  lemma Join(whole: string, rest: string, post: string)
    requires whole == ['$'] + rest
    ensures ['$'] + (rest + post) == whole + post
  {
  }

  /** and a brace that is never closed. */
  lemma NeverClosed(ctx: VarContext, open: string)
    requires '$' !in open && '}' !in open
    ensures Substitute(ctx, "${" + open) == Substituted("${" + open, true)
  {
    assert ("${" + open)[2..] == open;
    IndexAbsent(open, '}');
    Join("${", "{", open);
    SubstituteIdentity(ctx, "{" + open);
    OneKept(ctx, '$', "{" + open);
  }

  lemma Regroup(pre: string, rest: string)
    requires pre != ""
    ensures [pre[0]] + (pre[1..] + rest) == pre + rest
    ensures (pre + rest)[0] == pre[0] && (pre + rest)[1..] == pre[1..] + rest
  {
  }

  lemma {:induction false} SubstituteAfterPlain(ctx: VarContext, pre: string, rest: string)
    requires '$' !in pre
    ensures var r := Substitute(ctx, rest);
            Substitute(ctx, pre + rest) == Substituted(pre + r.text, r.ok)
  {
    if pre == "" {
      assert pre + rest == rest;
      assert pre + Substitute(ctx, rest).text == Substitute(ctx, rest).text;
    } else {
      SubstituteAfterPlain(ctx, pre[1..], rest);
      Regroup(pre, rest);
      SubstituteOne(ctx, pre + rest);
      Regroup(pre, Substitute(ctx, rest).text);
    }
  }
}
