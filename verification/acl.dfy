/**
 * The `Acl` object: default access, role registry, grant table and the key of
 * the last grant that decided a query (`$_matchedAccessKey`). Every PHP
 * method that changes the object is a function from the old value to the new
 * one here; a query returns the new value together with its answer.
 */
module AccessControl {
  import opened Wrappers
  import OrderedMap
  import opened Keys
  import opened Grants
  import opened Roles
  import opened Resolver

  datatype Acl = Acl(defaultAccess: bool, registry: Registry, table: Table, matched: Option<Key>)

  /** What every sequence of public calls keeps true. */
  ghost predicate Valid(acl: Acl) {
    Roles.Valid(acl.registry) && ValidTable(acl.table)
  }

  /** `new Acl()`: no roles, no grants, default access `true`. */
  function New(): (r: Acl)
    ensures Valid(r)
    ensures r.defaultAccess
    ensures r.registry.names == [] && r.registry.parents == map[]
    ensures r.table.entries == map[]
    ensures r.matched.None?
  {
    Acl(true, Roles.Empty(), OrderedMap.Empty(), None)
  }

  function SetDefaultAction(acl: Acl, allowed: bool): (r: Acl)
    ensures GetDefaultAction(r) == allowed
    ensures r.(defaultAccess := acl.defaultAccess) == acl
  {
    acl.(defaultAccess := allowed)
  }

  function GetDefaultAction(acl: Acl): bool {
    acl.defaultAccess
  }

  /** `_allowOrDeny`: stores the normalised action under the role and endpoint,
      replacing an earlier grant for that key. Nothing else changes; in
      particular the role is not registered. */
  function AllowOrDeny(acl: Acl, role: string, endpoint: Endpoint, action: RawAction): (r: Acl)
    ensures Valid(acl) ==> Valid(r)
    ensures r.(table := acl.table) == acl
    ensures Key(role, endpoint) in r.table.entries
    ensures r.table.entries[Key(role, endpoint)] == ToGrant(action)
    ensures forall k :: k != Key(role, endpoint) ==> (k in r.table.entries <==> k in acl.table.entries)
    ensures forall k :: k != Key(role, endpoint) && k in acl.table.entries
                        ==> r.table.entries[k] == acl.table.entries[k]
  {
    acl.(table := Write(acl.table, Key(role, endpoint), action))
  }

  /** `allow`: an empty rule list stores `true`, any other list is stored as
      its normalised payload. */
  function Allow(acl: Acl, role: string, resource: string, action: string, rules: seq<RawEntry>): (r: Acl)
    ensures Valid(acl) ==> Valid(r)
    ensures r.(table := acl.table) == acl
    ensures var k := Key(role, Endpoint(resource, action));
            && k in r.table.entries
            && (rules == [] ==> r.table.entries[k] == Permit)
            && (rules != [] ==> r.table.entries[k] == Conditional(Normalize(rules)))
    ensures forall k :: k != Key(role, Endpoint(resource, action))
                        ==> (k in r.table.entries <==> k in acl.table.entries)
    ensures forall k :: k != Key(role, Endpoint(resource, action)) && k in acl.table.entries
                        ==> r.table.entries[k] == acl.table.entries[k]
  {
    AllowOrDeny(acl, role, Endpoint(resource, action), if rules == [] then Literal(true) else Array(rules))
  }

  /** `deny`: stores `false`. */
  function Deny(acl: Acl, role: string, resource: string, action: string): (r: Acl)
    ensures Valid(acl) ==> Valid(r)
    ensures r.(table := acl.table) == acl
    ensures Key(role, Endpoint(resource, action)) in r.table.entries
    ensures r.table.entries[Key(role, Endpoint(resource, action))] == Forbid
    ensures forall k :: k != Key(role, Endpoint(resource, action))
                        ==> (k in r.table.entries <==> k in acl.table.entries)
    ensures forall k :: k != Key(role, Endpoint(resource, action)) && k in acl.table.entries
                        ==> r.table.entries[k] == acl.table.entries[k]
  {
    AllowOrDeny(acl, role, Endpoint(resource, action), Literal(false))
  }

  /** `addRole`: only the registry changes. */
  function AddRole(acl: Acl, role: string, inherit: Inherit): (r: Acl)
    ensures Valid(acl) ==> Valid(r)
    ensures r.(registry := acl.registry) == acl
    ensures forall x :: x in r.registry.names <==> x in acl.registry.names || x == role || x in ParentList(inherit)
    ensures |acl.registry.names| <= |r.registry.names|
    ensures r.registry.names[..|acl.registry.names|] == acl.registry.names
    ensures role !in acl.registry.names ==> |r.registry.names| > |acl.registry.names|
                                            && r.registry.names[|acl.registry.names|] == role
    ensures OrderedMap.Distinct(acl.registry.names)
            ==> r.registry.names == OrderedMap.FirstOccurrences(acl.registry.names + [role] + ParentList(inherit))
    ensures ParentsOf(r.registry.parents, role)
            == ParentsOf(acl.registry.parents, role) + Without(ParentList(inherit), role)
    ensures forall x :: x != role ==> (x in r.registry.parents <==> x in acl.registry.parents)
    ensures forall x :: x != role ==> ParentsOf(r.registry.parents, x) == ParentsOf(acl.registry.parents, x)
  {
    acl.(registry := Roles.AddRole(acl.registry, role, ParentList(inherit)))
  }

  /** `addInherit`: only the registry changes. */
  function AddInherit(acl: Acl, role: string, parent: string): (r: Acl)
    ensures Valid(acl) ==> Valid(r)
    ensures r.(registry := acl.registry) == acl
    ensures forall x :: x in r.registry.names <==> x in acl.registry.names || x == role || x == parent
    ensures r.registry.names == acl.registry.names
                                + (if role in acl.registry.names then [] else [role])
                                + (if parent in acl.registry.names || parent == role then [] else [parent])
    ensures ParentsOf(r.registry.parents, role)
            == ParentsOf(acl.registry.parents, role) + (if role == parent then [] else [parent])
    ensures forall x :: x != role ==> ParentsOf(r.registry.parents, x) == ParentsOf(acl.registry.parents, x)
  {
    acl.(registry := Roles.AddInherit(acl.registry, role, parent))
  }

  /** `getRoles`: the registered names, each once, in registration order. */
  function GetRoles(acl: Acl): (r: seq<string>)
    ensures Valid(acl) ==> OrderedMap.Distinct(r)
    ensures forall x :: x in r <==> x in acl.registry.names
    ensures r == acl.registry.names
  {
    acl.registry.names
  }

  /** `isAllowed`: searches from the queried role with nothing processed,
      records the key of the grant found (or none), and maps the result: no
      grant gives the default access, a stored `false` denies, and `true` or
      any payload allows. */
  function IsAllowed(acl: Acl, role: string, resource: string, action: string): (r: (Acl, bool))
    ensures r.0.(matched := acl.matched) == acl
    ensures r.0.matched.None? ==> r.1 == acl.defaultAccess
    ensures r.0.matched.Some? ==> r.0.matched.value in acl.table.entries
    ensures r.0.matched.Some? ==> (r.1 <==> acl.table.entries[r.0.matched.value] != Forbid)
    ensures r.0.matched.Some? ==> r.0.matched.value.endpoint in Tiers(resource, action)
    ensures r.0.matched.Some? ==> Reaches(acl.registry.parents, role, r.0.matched.value.role)
    ensures r.0.matched.None? <==> forall b :: Reaches(acl.registry.parents, role, b)
                                     ==> FindAccess(acl.table.entries, b, resource, action).None?
  {
    var s := FindInherit(acl.registry.parents, acl.table.entries, role, resource, action, {});
    HitIsReachable(acl.registry.parents, acl.table.entries, role, resource, action, {});
    NoMatchIffNoReachableGrant(acl.registry.parents, acl.table.entries, role, resource, action);
    match s.hit
    case None => (acl.(matched := None), acl.defaultAccess)
    case Some(h) => (acl.(matched := Some(h.key)), Decision(h.grant))
  }

  /** A query reads only the parent lists, the grants and the default
      access: the registration order and the previous match play no part. */
  lemma QueryReadsPolicyOnly(a: Acl, b: Acl, role: string, resource: string, action: string)
    requires a.registry.parents == b.registry.parents
    requires a.table.entries == b.table.entries
    requires a.defaultAccess == b.defaultAccess
    ensures IsAllowed(a, role, resource, action).1 == IsAllowed(b, role, resource, action).1
    ensures IsAllowed(a, role, resource, action).0.matched == IsAllowed(b, role, resource, action).0.matched
  {
  }

  /** `getMatchedAccessKey`: the stored text of the last deciding key. For
      separator-free names it reads back as that key. */
  function GetMatchedAccessKey(acl: Acl): (r: Option<string>)
    ensures r.Some? <==> acl.matched.Some?
    ensures r.Some? && Plain(acl.matched.value.role) && Plain(acl.matched.value.endpoint.resource)
            ==> ParseKey(r.value) == acl.matched
  {
    match acl.matched
    case None => None
    case Some(k) => KeyTextReadsBack(k); Some(KeyText(k))
  }

  /** `getMatchedRules`: the payload stored under the last deciding key, and
      nothing when no key decided or the grant there is a boolean. */
  function GetMatchedRules(acl: Acl): (r: Option<Rules>)
    ensures r.Some? ==> acl.matched.Some? && acl.matched.value in acl.table.entries
    ensures r.Some? ==> acl.table.entries[acl.matched.value] == Conditional(r.value)
    ensures (acl.matched.Some? && acl.matched.value in acl.table.entries
             && acl.table.entries[acl.matched.value].Conditional?) ==> r.Some?
  {
    match acl.matched
    case None => None
    case Some(k) =>
      if k in acl.table.entries && acl.table.entries[k].Conditional? then Some(acl.table.entries[k].rules)
      else None
  }

  /** Right after a query, the matched rules are the payload of the deciding
      grant: none when the default decided or a boolean grant decided, and
      a payload only for an allowed query. */
  lemma MatchedRulesAfterQuery(acl: Acl, role: string, resource: string, action: string)
    ensures var (after, allowed) := IsAllowed(acl, role, resource, action);
            && (after.matched.None? ==> GetMatchedRules(after).None?)
            && (GetMatchedRules(after).Some? ==> allowed)
            && (GetMatchedRules(after).None? && after.matched.Some?
                ==> acl.table.entries[after.matched.value] in {Permit, Forbid})
  {
    var (after, allowed) := IsAllowed(acl, role, resource, action);
    if after.matched.Some? {
      var g := acl.table.entries[after.matched.value];
      if !g.Conditional? {
        assert g == Permit || g == Forbid;
      }
    }
  }

  /** The answer `whichRolesHaveAccess` gives: each of `roles` that a fresh
      query allows, in order, with the rules that query matched. */
  function Grantees(acl: Acl, roles: seq<string>, resource: string, action: string): (g: seq<(string, Option<Rules>)>)
    ensures |g| <= |roles|
    ensures forall i :: 0 <= i < |g| ==>
              && g[i].0 in roles
              && IsAllowed(acl, g[i].0, resource, action).1
              && g[i].1 == GetMatchedRules(IsAllowed(acl, g[i].0, resource, action).0)
    ensures forall x :: x in roles && IsAllowed(acl, x, resource, action).1
                        ==> exists i :: 0 <= i < |g| && g[i].0 == x
  {
    if roles == [] then []
    else
      var front := roles[..|roles| - 1];
      var last := roles[|roles| - 1];
      var before := Grantees(acl, front, resource, action);
      var q := IsAllowed(acl, last, resource, action);
      var g := if q.1 then before + [(last, GetMatchedRules(q.0))] else before;
      GranteesStep(acl, roles, before, g, resource, action);
      g
  }

  lemma GranteesStep(acl: Acl, roles: seq<string>, before: seq<(string, Option<Rules>)>,
                     g: seq<(string, Option<Rules>)>, resource: string, action: string)
    requires roles != []
    requires |before| <= |roles| - 1
    requires forall i :: 0 <= i < |before| ==>
               && before[i].0 in roles[..|roles| - 1]
               && IsAllowed(acl, before[i].0, resource, action).1
               && before[i].1 == GetMatchedRules(IsAllowed(acl, before[i].0, resource, action).0)
    requires forall x :: x in roles[..|roles| - 1] && IsAllowed(acl, x, resource, action).1
                        ==> exists i :: 0 <= i < |before| && before[i].0 == x
    requires var last := roles[|roles| - 1];
             var q := IsAllowed(acl, last, resource, action);
             g == if q.1 then before + [(last, GetMatchedRules(q.0))] else before
    ensures |g| <= |roles|
    ensures forall i :: 0 <= i < |g| ==>
              && g[i].0 in roles
              && IsAllowed(acl, g[i].0, resource, action).1
              && g[i].1 == GetMatchedRules(IsAllowed(acl, g[i].0, resource, action).0)
    ensures forall x :: x in roles && IsAllowed(acl, x, resource, action).1
                        ==> exists i :: 0 <= i < |g| && g[i].0 == x
  {
    var last := roles[|roles| - 1];
    OrderedMap.SplitLast(roles);
    GranteesSound(acl, roles, before, g, resource, action);
    forall x | x in roles && IsAllowed(acl, x, resource, action).1
      ensures exists i :: 0 <= i < |g| && g[i].0 == x
    {
      if x == last {
        assert g[|g| - 1].0 == x;
      } else {
        var i :| 0 <= i < |before| && before[i].0 == x;
        assert g[i] == before[i];
      }
    }
  }

  lemma GranteesSound(acl: Acl, roles: seq<string>, before: seq<(string, Option<Rules>)>,
                      g: seq<(string, Option<Rules>)>, resource: string, action: string)
    requires roles != []
    requires forall x :: x in roles <==> x in roles[..|roles| - 1] || x == roles[|roles| - 1]
    requires forall i :: 0 <= i < |before| ==>
               && before[i].0 in roles[..|roles| - 1]
               && IsAllowed(acl, before[i].0, resource, action).1
               && before[i].1 == GetMatchedRules(IsAllowed(acl, before[i].0, resource, action).0)
    requires var last := roles[|roles| - 1];
             var q := IsAllowed(acl, last, resource, action);
             g == if q.1 then before + [(last, GetMatchedRules(q.0))] else before
    ensures forall i :: 0 <= i < |g| ==>
              && g[i].0 in roles
              && IsAllowed(acl, g[i].0, resource, action).1
              && g[i].1 == GetMatchedRules(IsAllowed(acl, g[i].0, resource, action).0)
  {
    forall i | 0 <= i < |g|
      ensures g[i].0 in roles
      ensures IsAllowed(acl, g[i].0, resource, action).1
      ensures g[i].1 == GetMatchedRules(IsAllowed(acl, g[i].0, resource, action).0)
    {
      if i < |before| {
        assert g[i] == before[i];
      }
    }
  }

  /** The answer to a query does not depend on the key an earlier query
      matched. */
  lemma IsAllowedIgnoresMatched(acl: Acl, m: Option<Key>, role: string, resource: string, action: string)
    ensures IsAllowed(acl.(matched := m), role, resource, action) == IsAllowed(acl, role, resource, action)
  {
  }

  /** The loop step of `whichRolesHaveAccess`: the answer for the first
      `i + 1` roles extends the one for the first `i`. */
  lemma GranteesNext(acl: Acl, names: seq<string>, i: nat, resource: string, action: string)
    requires i < |names|
    ensures var q := IsAllowed(acl, names[i], resource, action);
            Grantees(acl, names[..i + 1], resource, action)
            == Grantees(acl, names[..i], resource, action) + (if q.1 then [(names[i], GetMatchedRules(q.0))] else [])
  {
    GranteesAppend(acl, names[..i], names[i], resource, action);
    assert names[..i + 1] == names[..i] + [names[i]];
  }

  /** One more role to ask: the answer grows by that role exactly when a
      fresh query for it is allowed. */
  lemma GranteesAppend(acl: Acl, roles: seq<string>, x: string, resource: string, action: string)
    ensures var q := IsAllowed(acl, x, resource, action);
            Grantees(acl, roles + [x], resource, action)
            == Grantees(acl, roles, resource, action) + (if q.1 then [(x, GetMatchedRules(q.0))] else [])
  {
    assert (roles + [x])[..|roles|] == roles;
  }

  /** `whichRolesHaveAccess`: queries every registered role in registration
      order and keeps the allowed ones with their matched rules. The
      caller's matched key is saved before the loop and restored after it,
      so the object comes back unchanged. */
  method WhichRolesHaveAccess(acl: Acl, resource: string, action: string)
    returns (after: Acl, found: seq<(string, Option<Rules>)>)
    ensures after == acl
    ensures found == Grantees(acl, acl.registry.names, resource, action)
  {
    var saved := acl.matched;
    var names := GetRoles(acl);
    var current := acl;
    found := [];
    var i := 0;
    while i < |names|
      invariant 0 <= i <= |names|
      invariant current.(matched := acl.matched) == acl
      invariant found == Grantees(acl, names[..i], resource, action)
    {
      IsAllowedIgnoresMatched(acl, current.matched, names[i], resource, action);
      GranteesNext(acl, names, i, resource, action);
      var q := IsAllowed(current, names[i], resource, action);
      current := q.0;
      if q.1 {
        found := found + [(names[i], GetMatchedRules(current))];
      }
      i := i + 1;
    }
    assert names[..i] == names;
    after := current.(matched := saved);
  }
}
