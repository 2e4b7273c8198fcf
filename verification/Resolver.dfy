/** MetadataResolver: which named policies a user has, directly and through groups. */
module Resolver {
  import opened GoStrings
  import opened PolicyTypes

  const GROUP_STATUS_ACTIVE := "on"

  datatype Group = Group(attachedPolicies: seq<string>, status: string) {
    predicate IsActive() {
      status == GROUP_STATUS_ACTIVE
    }
  }

  /** The parts of the metadata store the resolver reads. `corrupt` are users whose group index
      entry cannot be decoded. */
  datatype Metadata = Metadata(
    policies: map<string, Document>,
    users: map<UUID, seq<string>>,
    groupIndex: map<UUID, seq<string>>,
    corrupt: set<UUID>,
    groups: map<string, Group>)
  {
    function GetPolicyDocument(name: string): Result<Document> {
      if name in policies then Ok(policies[name]) else Err("policy not found")
    }

    function GetUserPolicyNames(user: UUID): Result<seq<string>> {
      if user in users then Ok(users[user]) else Err("user not found")
    }

    function GetGroupNamesForUser(user: UUID): Result<seq<string>> {
      if user in corrupt then Err("corrupt group index")
      else if user in groupIndex then Ok(groupIndex[user])
      else Ok([])
    }

    predicate Active(group: string) {
      group in groups && groups[group].IsActive()
    }

    /** The policies the named groups grant, group by group in order. */
    function PoliciesOf(names: seq<string>): seq<string> {
      if names == [] then []
      else (if Active(names[0]) then groups[names[0]].attachedPolicies else []) + PoliciesOf(names[1..])
    }

    function GroupPolicies(user: UUID): Result<seq<string>> {
      match GetGroupNamesForUser(user)
      case Err(e) => Err(e)
      case Ok(names) => Ok(PoliciesOf(names))
    }

    method GetGroupPoliciesForUser(user: UUID) returns (r: Result<seq<string>>)
      ensures r == GroupPolicies(user)
    {
      var groupNames := GetGroupNamesForUser(user);
      if groupNames.Err? {
        return Err(groupNames.error);
      }
      var policyNames: seq<string> := [];
      for i := 0 to |groupNames.value|
        invariant PoliciesOf(groupNames.value) == policyNames + PoliciesOf(groupNames.value[i..])
      {
        var groupName := groupNames.value[i];
        if groupName !in groups || !groups[groupName].IsActive() {
          continue;
        }
        policyNames := policyNames + groups[groupName].attachedPolicies;
      }
      assert groupNames.value[|groupNames.value|..] == [] && policyNames + [] == policyNames;
      return Ok(policyNames);
    }
  }

  /** A policy comes through the groups iff some active existing group of the list attaches it. */
  lemma {:induction false} GrantedThroughGroup(md: Metadata, names: seq<string>, policy: string)
    ensures policy in md.PoliciesOf(names)
       <==> exists g | g in names :: md.Active(g) && policy in md.groups[g].attachedPolicies
  {
    if names != [] {
      GrantedThroughGroup(md, names[1..], policy);
      assert forall g :: g in names <==> g == names[0] || g in names[1..];
    }
  }

  function RemoveAll(names: seq<string>, gone: string): seq<string> {
    if names == [] then []
    else (if names[0] == gone then [] else [names[0]]) + RemoveAll(names[1..], gone)
  }

  function WithStatus(md: Metadata, group: string, status: string): Metadata
    requires group in md.groups
  {
    md.(groups := md.groups[group := md.groups[group].(status := status)])
  }

  /** Switching a group off gives each member the same policies, in the same order, as taking the
      group off the member's list. */
  lemma {:induction false} DisablingIsRemoving(md: Metadata, group: string, status: string, names: seq<string>)
    requires group in md.groups && status != GROUP_STATUS_ACTIVE
    ensures WithStatus(md, group, status).PoliciesOf(names) == md.PoliciesOf(RemoveAll(names, group))
  {
    if names != [] {
      DisablingIsRemoving(md, group, status, names[1..]);
      var rest := RemoveAll(names[1..], group);
      if names[0] == group {
        assert !WithStatus(md, group, status).Active(names[0]);
        assert RemoveAll(names, group) == rest;
      } else {
        assert WithStatus(md, group, status).Active(names[0]) == md.Active(names[0]);
        assert ([names[0]] + rest)[1..] == rest;
      }
    }
  }
}
