/** Authorization policies and their reduction to search filters. */
module Policies {
  import opened Wrappers
  import opened Values
  import opened Filters
  import opened FilterConverter

  datatype Action = Create | ReadOne | Update | Delete | Search | Count | BatchRead | Custom(name: string)

  datatype Policy =
    | AllowAll
    | DenyAll
    | ReadOnly
    | Owner(ownerField: string)
    | GroupMember(groupIds: seq<string>, members: set<string>, onMatch: Policy, onMismatch: Policy, onCreate: Policy)
    | Acl(ids: seq<string>, idField: string, onCreate: Policy)

  /** The most values an In leaf may carry. */
  const MAX_IN_VALUES := 500

  predicate ReadLike(action: Action) {
    action.ReadOne? || action.Search? || action.Count? || action.BatchRead?
  }

  predicate BelongsTo(members: set<string>, groupIds: seq<string>) {
    exists i | 0 <= i < |groupIds| :: groupIds[i] in members
  }

  /** The identifiers are a set: listing one twice does not count twice. */
  function Distinct(ids: seq<string>): set<string> {
    set id | id in ids
  }

  function AsValues(ids: seq<string>): (r: seq<Value>)
    ensures |r| == |ids|
  {
    seq(|ids|, i requires 0 <= i < |ids| => Str(ids[i]))
  }

  /** to_search_filter: the rows a policy admits, as a filter. */
  function Reduce(policy: Policy, user: Option<string>, action: Action): Result<Filter, Error> {
    match policy
    case AllowAll => Ok(All)
    case DenyAll => Ok(NoMatch)
    case ReadOnly => Ok(if ReadLike(action) then All else NoMatch)
    case Owner(ownerField) =>
      if user.None? then Ok(NoMatch)
      else if action.Create? then Ok(All)
      else Ok(Attr(ownerField, On(Eq(Str(user.value)))))
    case GroupMember(groupIds, members, onMatch, onMismatch, onCreate) =>
      if action.Create? then Reduce(onCreate, user, action)
      else if BelongsTo(members, groupIds) then Reduce(onMatch, user, action)
      else Reduce(onMismatch, user, action)
    case Acl(ids, idField, onCreate) =>
      if action.Create? then Reduce(onCreate, user, action)
      else if ids == [] then Ok(NoMatch)
      else if |Distinct(ids)| > MAX_IN_VALUES then Err(TooManyValues)
      else Ok(Attr(idField, On(In(AsValues(ids)))))
  }

  /** bind_member_groups: only a policy that is itself a membership policy is bound. */
  function BindMemberGroups(policy: Policy, groups: set<string>): Policy {
    if policy.GroupMember? then policy.(members := groups) else policy
  }

  /** Whether a policy lets this user perform the action on a row, said without filters. */
  predicate Permits(policy: Policy, user: Option<string>, action: Action, row: map<string, Value>) {
    match policy
    case AllowAll => true
    case DenyAll => false
    case ReadOnly => action in {ReadOne, Search, Count, BatchRead}
    case Owner(ownerField) => user.Some? && (action.Create? || Read(row, ownerField) == Str(user.value))
    case GroupMember(groupIds, members, onMatch, onMismatch, onCreate) =>
      if action.Create? then Permits(onCreate, user, action, row)
      else if BelongsTo(members, groupIds) then Permits(onMatch, user, action, row)
      else Permits(onMismatch, user, action, row)
    case Acl(ids, idField, onCreate) =>
      if action.Create? then Permits(onCreate, user, action, row)
      else exists i | 0 <= i < |ids| :: Read(row, idField) == Str(ids[i])
  }

  /**
   Binding the caller's groups decides a membership policy outside creates, and leaves
   every other policy as it is, membership policies nested in it included.
   */
  lemma BoundMembership(
    policy: Policy, groups: set<string>, user: Option<string>, action: Action, row: map<string, Value>)
    requires Reduce(BindMemberGroups(policy, groups), user, action).Ok?
    ensures var admitted := Holds(Reduce(BindMemberGroups(policy, groups), user, action).value, Object(row));
            if policy.GroupMember? && !action.Create? then
              admitted <==> Permits(if exists g | g in groups :: g in policy.groupIds then policy.onMatch
                                    else policy.onMismatch, user, action, row)
            else
              admitted <==> Permits(policy, user, action, row)
  {
    ReduceMeaning(BindMemberGroups(policy, groups), user, action, row);
  }

  /** The reduction admits exactly the permitted rows, and can be pushed down. */
  lemma {:induction false} ReduceMeaning(policy: Policy, user: Option<string>, action: Action, row: map<string, Value>)
    requires Reduce(policy, user, action).Ok?
    ensures Holds(Reduce(policy, user, action).value, Object(row)) <==> Permits(policy, user, action, row)
    ensures Pushable(Reduce(policy, user, action).value, false)
  {
    match policy
    case AllowAll =>
    case DenyAll =>
    case ReadOnly =>
    case Owner(_) =>
    case GroupMember(_, _, onMatch, onMismatch, onCreate) =>
      if action.Create? {
        ReduceMeaning(onCreate, user, action, row);
      } else if BelongsTo(policy.members, policy.groupIds) {
        ReduceMeaning(onMatch, user, action, row);
      } else {
        ReduceMeaning(onMismatch, user, action, row);
      }
    case Acl(ids, idField, onCreate) =>
      if action.Create? {
        ReduceMeaning(onCreate, user, action, row);
      } else {
        assert forall i :: 0 <= i < |ids| ==> AsValues(ids)[i] == Str(ids[i]);
        assert Read(row, idField) in AsValues(ids) <==> exists i :: 0 <= i < |ids| && Read(row, idField) == Str(ids[i]);
      }
  }

  /** A read-only policy admits every row to the four reading actions, and none to any other, a custom one included. */
  lemma ReadOnlyReads(user: Option<string>, action: Action, row: map<string, Value>)
    ensures Reduce(ReadOnly, user, action).Ok?
    ensures Holds(Reduce(ReadOnly, user, action).value, Object(row))
       <==> action == ReadOne || action == Search || action == Count || action == BatchRead
  {
  }

  /** For creation a reduction is always a constant. */
  lemma {:induction false} CreateReducesToConstant(policy: Policy, user: Option<string>, row: map<string, Value>)
    ensures Reduce(policy, user, Create) == Ok(if Permits(policy, user, Create, row) then All else NoMatch)
  {
    match policy
    case GroupMember(_, _, _, _, onCreate) => CreateReducesToConstant(onCreate, user, row);
    case Acl(_, _, onCreate) => CreateReducesToConstant(onCreate, user, row);
    case _ =>
  }

  // ----- The union of a principal's policies -----

  function ReduceAll(policies: seq<Policy>, user: Option<string>, action: Action): Result<seq<Filter>, Error> {
    if policies == [] then Ok([])
    else
      match Reduce(policies[0], user, action)
      case Err(e) => Err(e)
      case Ok(first) =>
        match ReduceAll(policies[1..], user, action)
        case Err(e) => Err(e)
        case Ok(rest) => Ok([first] + rest)
  }

  /** _permission_filter: the union of every policy's reduction; no policy means no row. */
  function PermissionFilter(policies: seq<Policy>, user: Option<string>, action: Action): Result<Filter, Error> {
    match ReduceAll(policies, user, action)
    case Err(e) => Err(e)
    case Ok(reductions) => Ok(OrOf(reductions))
  }

  /** The policy comes down to a list of more identifiers than a filter may carry, which is 500. */
  predicate Overlong(policy: Policy, action: Action) {
    match policy
    case GroupMember(groupIds, members, onMatch, onMismatch, _) =>
      && !action.Create?
      && if BelongsTo(members, groupIds) then Overlong(onMatch, action) else Overlong(onMismatch, action)
    case Acl(ids, _, _) => !action.Create? && |Distinct(ids)| > 500
    case _ => false
  }

  predicate SomeOverlong(policies: seq<Policy>, action: Action) {
    exists p | p in policies :: Overlong(p, action)
  }

  /** A policy raises exactly when it is overlong for the action. */
  lemma {:induction false} ReduceRaisesExactly(policy: Policy, user: Option<string>, action: Action)
    ensures Reduce(policy, user, action).Err? <==> Overlong(policy, action)
    ensures Reduce(policy, user, action).Err? ==> Reduce(policy, user, action).error == TooManyValues
  {
    if action.Create? {
      CreateReducesToConstant(policy, user, map[]);
    } else if policy.GroupMember? {
      ReduceRaisesExactly(policy.onMatch, user, action);
      ReduceRaisesExactly(policy.onMismatch, user, action);
    }
  }

  /** The permission filter raises exactly when one of the policies is, and then whatever the others grant. */
  lemma {:induction false} PermissionRaisesExactly(policies: seq<Policy>, user: Option<string>, action: Action)
    ensures PermissionFilter(policies, user, action).Err? <==> SomeOverlong(policies, action)
    ensures PermissionFilter(policies, user, action).Err? ==>
              PermissionFilter(policies, user, action).error == TooManyValues
  {
    if policies != [] {
      ReduceRaisesExactly(policies[0], user, action);
      PermissionRaisesExactly(policies[1..], user, action);
      assert policies == [policies[0]] + policies[1..];
    }
  }

  predicate SomePermits(policies: seq<Policy>, user: Option<string>, action: Action, row: map<string, Value>) {
    exists p | p in policies :: Permits(p, user, action, row)
  }

  lemma {:induction false} ReduceAllMeaning(
    policies: seq<Policy>, user: Option<string>, action: Action, row: map<string, Value>)
    requires ReduceAll(policies, user, action).Ok?
    ensures SomeHolds(ReduceAll(policies, user, action).value, Object(row))
       <==> SomePermits(policies, user, action, row)
    ensures forall f :: f in ReduceAll(policies, user, action).value ==> Pushable(f, false)
  {
    if policies != [] {
      ReduceMeaning(policies[0], user, action, row);
      ReduceAllMeaning(policies[1..], user, action, row);
      assert policies == [policies[0]] + policies[1..];
      var first := Reduce(policies[0], user, action).value;
      var rest := ReduceAll(policies[1..], user, action).value;
      assert forall f :: f in [first] + rest <==> f == first || f in rest;
    }
  }

  /** The permission filter holds of a row exactly when some policy permits the action on it. */
  lemma PermissionFilterMeaning(policies: seq<Policy>, user: Option<string>, action: Action, row: map<string, Value>)
    requires PermissionFilter(policies, user, action).Ok?
    ensures Holds(PermissionFilter(policies, user, action).value, Object(row))
       <==> SomePermits(policies, user, action, row)
    ensures Pushable(PermissionFilter(policies, user, action).value, false)
  {
    ReduceAllMeaning(policies, user, action, row);
    OrOfMeaning(ReduceAll(policies, user, action).value, Object(row));
    FactoriesKeepPushable(ReduceAll(policies, user, action).value, false);
  }

  lemma {:induction false} ReduceAllForCreate(policies: seq<Policy>, user: Option<string>, row: map<string, Value>)
    ensures ReduceAll(policies, user, Create).Ok?
    ensures forall f :: f in ReduceAll(policies, user, Create).value ==> f == All || f == NoMatch
    ensures All in ReduceAll(policies, user, Create).value <==> SomePermits(policies, user, Create, row)
  {
    if policies != [] {
      CreateReducesToConstant(policies[0], user, row);
      ReduceAllForCreate(policies[1..], user, row);
      assert policies == [policies[0]] + policies[1..];
    }
  }

  /**
   Creation is refused exactly when no policy grants it: its permission filter is the
   constant NoMatch then, and the constant All otherwise.
   */
  lemma CreatePermissionIsConstant(policies: seq<Policy>, user: Option<string>, row: map<string, Value>)
    ensures PermissionFilter(policies, user, Create)
         == Ok(if SomePermits(policies, user, Create, row) then All else NoMatch)
  {
    ReduceAllForCreate(policies, user, row);
    OrOfConstants(ReduceAll(policies, user, Create).value);
  }
}
