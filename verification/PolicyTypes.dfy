/** The entities of the policy engine: documents, principals, resources, requests, decisions. */
module PolicyTypes {
  import opened GoStrings

  type UUID = nat

  /** A field of Go type `any`, as JSON decoding or a Go literal fills it. */
  datatype Value =
    | Nil
    | Str(s: string)
    | StrArr(strs: seq<string>)
    | AnyArr(items: seq<Value>)
    | Map(fields: map<string, Value>)
    | Other(tag: int)

  datatype Statement = Statement(
    sid: string,
    effect: string,
    principal: Value,
    notPrincipal: Value,
    action: Value,
    notAction: Value,
    resource: Value,
    notResource: Value,
    condition: map<string, Value>)

  datatype Document = Document(version: string, statements: seq<Statement>)

  datatype User = User(uuid: UUID, username: string, accessKey: string, attachedPolicies: seq<string>)

  /** An empty policy mode counts as inherit. */
  const POLICY_MODE_OVERRIDE := "override"

  datatype Principal = Principal(
    user: Option<User>,
    isAnonymous: bool,
    isAdmin: bool,
    isServiceAccount: bool,
    parentUserUUID: Option<UUID>,
    policyMode: string,
    embeddedPolicyJSON: string)
  {
    predicate IsOverride() {
      isServiceAccount && policyMode == POLICY_MODE_OVERRIDE
    }
  }

  datatype Resource = Resource(bucket: string, key: string) {
    function ARN(): string {
      if bucket == "" then "*"
      else if key == "" then "arn:aws:s3:::" + bucket
      else "arn:aws:s3:::" + bucket + "/" + key
    }
  }

  /** A point in time, and its RFC 3339 text, which is cut to seconds. */
  datatype Instant = Instant(nanos: int, text: string)

  /** Values for `${...}` substitution; "" and None stand for the zero value of the field. */
  datatype VarContext = VarContext(
    username: string,
    userID: string,
    sourceIP: string,
    currentTime: Option<Instant>,
    userAgent: string,
    s3Prefix: string,
    s3Delimiter: string)

  datatype ConditionContext = ConditionContext(secureTransport: bool, contentLength: int)

  datatype Request = Request(
    principal: Principal,
    action: string,
    resource: Resource,
    conditions: Option<ConditionContext>,
    varContext: Option<VarContext>,
    bucketOwner: Option<UUID>,
    objectOwner: Option<UUID>)

  datatype Decision = Deny | Allow | ExplicitDeny {
    /** The numeric order of the constants: Deny < Allow < ExplicitDeny. */
    function Rank(): nat {
      match this
      case Deny => 0
      case Allow => 1
      case ExplicitDeny => 2
    }
  }

  function Max(a: Decision, b: Decision): Decision {
    if a.Rank() >= b.Rank() then a else b
  }

  /** What a condition key reads from the request. */
  datatype ContextValue =
    | TextValue(text: string)
    | IPValue(ip: string)
    | TimeValue(nanos: int)
    | BoolValue(b: bool)
    | IntValue(n: int)

  /** A condition outcome: Go's (bool, error) pair. */
  datatype Outcome = Match | NoMatch | Failed

  /** Code of other packages the engine calls: JSON decoding of embedded policies, the typed
      condition operators, `%v` formatting, and the clock. Every theorem holds for any choice. */
  datatype Foreign = Foreign(
    parsePolicy: string -> Option<Document>,
    compare: (string, ContextValue, Value) -> Outcome,
    sprint: Value -> string,
    now: Instant)
}
