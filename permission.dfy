/**
 * The permission rule of the repository layer. A user carries a list of
 * grants; a grant names an action, a resource type, a resource id and an
 * owner, each of which may be the wildcard "*". Reads, updates and deletes
 * see only the rows some relevant grant covers; creates are checked against
 * the create grants before anything is written.
 */
module Permission {
  import opened Js

  const Wildcard := "*"

  /**
   * One permission of a user. `owner` is the field the repository reads
   * (`permission.owner`); the row type of the permissions table calls it
   * `resource_owner_id`.
   */
  datatype Grant = Grant(action: string, resourceType: string, resourceId: string, owner: string)

  /** The grant applies to this table and this action (the `.filter(...)` on the user's permissions). */
  predicate Relevant(g: Grant, resource: string, action: string) {
    (g.resourceType == resource || g.resourceType == Wildcard) && (g.action == action || g.action == Wildcard)
  }

  /** The grant reaches a row with this id and this owner. */
  predicate Covers(g: Grant, id: JsValue, owner: JsValue) {
    (g.owner == Wildcard || owner == Str(g.owner)) && (g.resourceId == Wildcard || id == Str(g.resourceId))
  }

  /** The rule: some grant is relevant and reaches the row. */
  predicate Allowed(grants: seq<Grant>, resource: string, action: string, id: JsValue, owner: JsValue) {
    exists g :: g in grants && Relevant(g, resource, action) && Covers(g, id, owner)
  }

  /** The relevant grants, in the user's order. */
  function RelevantGrants(grants: seq<Grant>, resource: string, action: string): seq<Grant> {
    if grants == [] then []
    else (if Relevant(grants[0], resource, action) then [grants[0]] else []) + RelevantGrants(grants[1..], resource, action)
  }

  /** One parenthesised disjunct of the permission condition. */
  datatype Condition =
    | Always                          // both wildcards
    | IdIs(id: string)                // any owner, one row
    | OwnerIs(owner: string)          // one owner, any row
    | OwnerAndId(owner: string, id: string)

  /** What the repository adds to a query: `false`, or the disjunction of the conditions. */
  datatype Filter = Deny | AnyOf(conditions: seq<Condition>)

  predicate Holds(c: Condition, id: JsValue, owner: JsValue) {
    match c
    case Always => true
    case IdIs(i) => id == Str(i)
    case OwnerIs(o) => owner == Str(o)
    case OwnerAndId(o, i) => owner == Str(o) && id == Str(i)
  }

  predicate Passes(f: Filter, id: JsValue, owner: JsValue) {
    match f
    case Deny => false
    case AnyOf(cs) => exists c :: c in cs && Holds(c, id, owner)
  }

  /** The condition written for one grant, by which of its two fields are wildcards. */
  function ConditionOf(g: Grant): Condition {
    if g.owner == Wildcard && g.resourceId == Wildcard then Always
    else if g.owner == Wildcard && g.resourceId != Wildcard then IdIs(g.resourceId)
    else if g.owner != Wildcard && g.resourceId == Wildcard then OwnerIs(g.owner)
    else OwnerAndId(g.owner, g.resourceId)
  }

  /**
   * The filter `enforcePermissions` adds once a current user is known: no
   * relevant grant gives `false`; otherwise the conditions of the relevant
   * grants, one per grant in order, joined by OR.
   */
  function FilterOf(grants: seq<Grant>, resource: string, action: string): Filter {
    var permissions := RelevantGrants(grants, resource, action);
    if permissions == [] then Deny
    else AnyOf(seq(|permissions|, i requires 0 <= i < |permissions| => ConditionOf(permissions[i])))
  }

  /** The loop of `enforcePermissions` that appends one condition per relevant grant. */
  method PermissionFilter(grants: seq<Grant>, resource: string, action: string) returns (f: Filter)
    ensures f == FilterOf(grants, resource, action)
    ensures f.Deny? <==> RelevantGrants(grants, resource, action) == []
    ensures forall id, owner :: Passes(f, id, owner) <==> Allowed(grants, resource, action, id, owner)
  {
    var permissions := RelevantGrants(grants, resource, action);
    FilterOfSpec(grants, resource, action);
    if |permissions| == 0 {
      return Deny;
    }
    var conditions: seq<Condition> := [];
    for i := 0 to |permissions|
      invariant |conditions| == i
      invariant forall j :: 0 <= j < i ==> conditions[j] == ConditionOf(permissions[j])
    {
      conditions := conditions + [ConditionOf(permissions[i])];
    }
    f := AnyOf(conditions);
  }

  /** A row passes the filter exactly when the rule allows it; the filter is `false` exactly when no grant is relevant. */
  lemma FilterOfSpec(grants: seq<Grant>, resource: string, action: string)
    ensures FilterOf(grants, resource, action).Deny? <==> RelevantGrants(grants, resource, action) == []
    ensures forall id, owner :: Passes(FilterOf(grants, resource, action), id, owner) <==> Allowed(grants, resource, action, id, owner)
  {
    RelevantGrantsSpec(grants, resource, action);
    var permissions := RelevantGrants(grants, resource, action);
    var f := FilterOf(grants, resource, action);
    forall id, owner ensures Passes(f, id, owner) <==> Allowed(grants, resource, action, id, owner) {
      if permissions == [] {
        NothingRelevant(grants, resource, action, id, owner);
      } else {
        ConditionsAgree(grants, resource, action, f.conditions, id, owner);
      }
    }
  }

  /**
   * The create check (`hasPermission` on the create grants): the target is
   * the input's id, or "*" when it has none, so a grant for one specific id
   * never allows creating a row without an id.
   */
  predicate CreateAllowed(grants: seq<Grant>, resource: string, id: JsValue, owner: JsValue) {
    Allowed(RelevantGrants(grants, resource, "create"), resource, "create", if Truthy(id) then id else Str(Wildcard), owner)
  }

  // ---------------------------------------------------------------------------

  lemma {:induction false} RelevantGrantsSpec(grants: seq<Grant>, resource: string, action: string)
    ensures forall g :: g in RelevantGrants(grants, resource, action) <==> g in grants && Relevant(g, resource, action)
  {
    if grants != [] {
      RelevantGrantsSpec(grants[1..], resource, action);
      assert grants == [grants[0]] + grants[1..];
    }
  }

  lemma NothingRelevant(grants: seq<Grant>, resource: string, action: string, id: JsValue, owner: JsValue)
    requires forall g :: g in grants ==> !Relevant(g, resource, action)
    ensures !Allowed(grants, resource, action, id, owner)
  {
  }

  /** The condition of a grant holds exactly for the rows the grant reaches. */
  lemma ConditionOfCovers(g: Grant, id: JsValue, owner: JsValue)
    ensures Holds(ConditionOf(g), id, owner) <==> Covers(g, id, owner)
  {
  }

  lemma ConditionsAgree(grants: seq<Grant>, resource: string, action: string, conditions: seq<Condition>, id: JsValue, owner: JsValue)
    requires forall g :: g in RelevantGrants(grants, resource, action) <==> g in grants && Relevant(g, resource, action)
    requires |conditions| == |RelevantGrants(grants, resource, action)|
    requires forall j :: 0 <= j < |conditions| ==> conditions[j] == ConditionOf(RelevantGrants(grants, resource, action)[j])
    ensures (exists c :: c in conditions && Holds(c, id, owner)) <==> Allowed(grants, resource, action, id, owner)
  {
    var permissions := RelevantGrants(grants, resource, action);
    if exists c :: c in conditions && Holds(c, id, owner) {
      var c :| c in conditions && Holds(c, id, owner);
      var j :| 0 <= j < |conditions| && conditions[j] == c;
      ConditionOfCovers(permissions[j], id, owner);
      assert permissions[j] in permissions;
    }
    if Allowed(grants, resource, action, id, owner) {
      var g :| g in grants && Relevant(g, resource, action) && Covers(g, id, owner);
      assert g in permissions;
      var j :| 0 <= j < |permissions| && permissions[j] == g;
      ConditionOfCovers(g, id, owner);
      assert conditions[j] in conditions;
    }
  }

  /** Filtering by relevance first changes nothing about the rule for the same table and action. */
  lemma AllowedRelevant(grants: seq<Grant>, resource: string, action: string, id: JsValue, owner: JsValue)
    ensures Allowed(RelevantGrants(grants, resource, action), resource, action, id, owner)
            <==> Allowed(grants, resource, action, id, owner)
  {
    RelevantGrantsSpec(grants, resource, action);
  }

  /**
   * The condition written for a single relevant grant is its own disjunct,
   * and a row passes it exactly when the row's owner and id match the
   * grant's wherever those are not wildcards.
   */
  lemma SingleGrant(g: Grant, resource: string, action: string, id: JsValue, owner: JsValue)
    requires Relevant(g, resource, action)
    ensures FilterOf([g], resource, action) == AnyOf([ConditionOf(g)])
    ensures Passes(FilterOf([g], resource, action), id, owner)
            <==> (g.owner == Wildcard || owner == Str(g.owner)) && (g.resourceId == Wildcard || id == Str(g.resourceId))
  {
    assert RelevantGrants([g], resource, action) == [g] by {
      assert [g][1..] == [];
    }
    ConditionOfCovers(g, id, owner);
    assert ConditionOf(g) in [ConditionOf(g)];
  }

  /** A create grant limited to one id never allows creating a row that has no id. */
  lemma CreateWithoutId(grants: seq<Grant>, resource: string, owner: JsValue)
    requires forall g :: g in grants ==> g.resourceId != Wildcard
    ensures !CreateAllowed(grants, resource, Null, owner)
  {
    RelevantGrantsSpec(grants, resource, "create");
  }
}
