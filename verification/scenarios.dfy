/**
 * Query outcomes for concrete and general situations: a grant just written
 * decides the query for its own endpoint, a wildcard action covers the
 * actions without their own grant, mutually inheriting roles without grants
 * fall back to the default, and a guest/administrator setup answers as the
 * tier order and the inheritance order prescribe.
 */
module Scenarios {
  import opened Wrappers
  import OrderedMap
  import opened Keys
  import opened Grants
  import opened Roles
  import opened Resolver
  import opened AccessControl

  /** A role with a grant of its own on one of the four tiers is decided by
      the most specific such grant; its parents are not consulted. */
  lemma OwnGrantDecides(acl: Acl, role: string, resource: string, action: string)
    requires FindAccess(acl.table.entries, role, resource, action).Some?
    ensures var h := FindAccess(acl.table.entries, role, resource, action).value;
            IsAllowed(acl, role, resource, action) == (acl.(matched := Some(h.key)), Decision(h.grant))
  {
  }

  /** The exact endpoint is the first tier, so its grant decides. */
  lemma ExactGrantDecides(acl: Acl, role: string, resource: string, action: string)
    requires Key(role, Endpoint(resource, action)) in acl.table.entries
    ensures IsAllowed(acl, role, resource, action)
            == (acl.(matched := Some(Key(role, Endpoint(resource, action)))),
                acl.table.entries[Key(role, Endpoint(resource, action))] != Forbid)
  {
    var h := FindAccess(acl.table.entries, role, resource, action);
    assert Key(role, Tiers(resource, action)[0]) in acl.table.entries;
    assert h.value.key == Key(role, Endpoint(resource, action));
    OwnGrantDecides(acl, role, resource, action);
  }

  /** After `allow(role, res, act, rules)` the same query is allowed. */
  lemma AllowThenAllowed(acl: Acl, role: string, resource: string, action: string, rules: seq<RawEntry>)
    ensures IsAllowed(Allow(acl, role, resource, action, rules), role, resource, action).1
  {
    ExactGrantDecides(Allow(acl, role, resource, action, rules), role, resource, action);
  }

  /** After `deny(role, res, act)` the same query is denied, by that key. */
  lemma DenyThenDenied(acl: Acl, role: string, resource: string, action: string)
    ensures var (after, allowed) := IsAllowed(Deny(acl, role, resource, action), role, resource, action);
            !allowed && after.matched == Some(Key(role, Endpoint(resource, action)))
  {
    ExactGrantDecides(Deny(acl, role, resource, action), role, resource, action);
  }

  /** `allow(role, res, '*')` allows every action of `res` that has no
      exact grant of the role. */
  lemma WildcardAllowCoversActions(acl: Acl, role: string, resource: string, action: string)
    requires Key(role, Endpoint(resource, action)) !in acl.table.entries
    ensures IsAllowed(Allow(acl, role, resource, Wildcard, []), role, resource, action).1
  {
    var after := Allow(acl, role, resource, Wildcard, []);
    var tiers := Tiers(resource, action);
    assert Key(role, tiers[1]) in after.table.entries;
    var h := FindAccess(after.table.entries, role, resource, action);
    assert h.value.key == Key(role, tiers[0]) || h.value.key == Key(role, tiers[1]);
    OwnGrantDecides(after, role, resource, action);
  }

  /** `addRole(x, [p, q])` on a new object, with three distinct names,
      registers the role and then its parents in list order. */
  lemma AddRoleRegistersInOrder(x: string, p: string, q: string)
    requires x != p && x != q && p != q
    ensures GetRoles(AccessControl.AddRole(New(), x, Several([p, q]))) == [x, p, q]
  {
    var start := New();
    var xpq := [x, p, q];
    assert start.registry.names + [x] + [p, q] == xpq;
    assert OrderedMap.FirstOccurrences(xpq) == xpq by {
      assert OrderedMap.Distinct(xpq);
      OrderedMap.FirstOccurrencesOfDistinct(xpq);
    }
  }

  /** Two roles that inherit from each other. */
  function MutualRoles(defaultAccess: bool): Acl {
    AccessControl.AddRole(AccessControl.AddRole(SetDefaultAction(New(), defaultAccess), "A", Single("B")), "B", Single("A"))
  }

  /** The two roles name each other as parents, and no grant exists. */
  lemma MutualRolesParents(defaultAccess: bool)
    ensures ParentsOf(MutualRoles(defaultAccess).registry.parents, "A") == ["B"]
    ensures ParentsOf(MutualRoles(defaultAccess).registry.parents, "B") == ["A"]
    ensures MutualRoles(defaultAccess).table.entries == map[]
  {
    var start := SetDefaultAction(New(), defaultAccess);
    var first := AccessControl.AddRole(start, "A", Single("B"));
    WithoutAbsent(["B"], "A");
    WithoutAbsent(["A"], "B");
    assert ParentsOf(start.registry.parents, "A") == [] && ParentsOf(start.registry.parents, "B") == [];
    assert ParentsOf(first.registry.parents, "A") == ["B"];
    assert ParentsOf(first.registry.parents, "B") == [];
  }

  /** Each of the two roles reaches the other. */
  lemma MutualRolesCycle(defaultAccess: bool)
    ensures Reaches(MutualRoles(defaultAccess).registry.parents, "A", "B")
    ensures Reaches(MutualRoles(defaultAccess).registry.parents, "B", "A")
  {
    var parents := MutualRoles(defaultAccess).registry.parents;
    MutualRolesParents(defaultAccess);
    ReachesSelf(parents, "A");
    ReachesSelf(parents, "B");
    ReachesThroughParent(parents, "A", "B", "B");
    ReachesThroughParent(parents, "B", "A", "A");
  }

  /** Mutually inheriting roles without grants: the search ends and the
      default decides, with nothing matched. */
  lemma CycleFallsBackToDefault(defaultAccess: bool, resource: string, action: string)
    ensures IsAllowed(MutualRoles(defaultAccess), "A", resource, action) == (MutualRoles(defaultAccess), defaultAccess)
    ensures GetMatchedRules(IsAllowed(MutualRoles(defaultAccess), "A", resource, action).0).None?
  {
    MutualRolesParents(defaultAccess);
  }

  /** Built through the API: default deny; the guest may use every route
      except `profile`; the administrator, added with the guest as parent,
      inherits from the guest and may do everything. */
  function GuestAdmin(): Acl {
    var guest := Deny(Allow(SetDefaultAction(New(), false), "Guest", "routes", "*", []), "Guest", "routes", "profile");
    Allow(AccessControl.AddRole(guest, "Admin", Single("Guest")), "Admin", "*", "*", [])
  }

  /** The grants of `GuestAdmin`. */
  function GuestAdminGrants(): map<Key, Grant> {
    map[Key("Guest", Endpoint("routes", "*")) := Permit,
        Key("Guest", Endpoint("routes", "profile")) := Forbid,
        Key("Admin", Endpoint("*", "*")) := Permit]
  }

  lemma GuestAdminTable()
    ensures GuestAdmin().table.entries == GuestAdminGrants()
    ensures GetRoles(GuestAdmin()) == ["Admin", "Guest"]
  {
    GuestAdminEntries();
    var guest := Deny(Allow(SetDefaultAction(New(), false), "Guest", "routes", "*", []), "Guest", "routes", "profile");
    assert guest.registry == Roles.Empty();
    Roles.AddRoleWithParent("Admin", "Guest");
  }

  lemma GuestAdminEntries()
    ensures GuestAdmin().table.entries == GuestAdminGrants()
  {
    var guest := Deny(Allow(SetDefaultAction(New(), false), "Guest", "routes", "*", []), "Guest", "routes", "profile");
    assert guest.table.entries == map[Key("Guest", Endpoint("routes", "*")) := Permit,
                                      Key("Guest", Endpoint("routes", "profile")) := Forbid];
  }

  /** The guest's exact deny beats its own resource wildcard. */
  lemma GuestDeniedProfile(acl: Acl)
    requires acl.table.entries == GuestAdminGrants()
    ensures !IsAllowed(acl, "Guest", "routes", "profile").1
  {
    ExactGrantDecides(acl, "Guest", "routes", "profile");
  }

  /** Other routes are allowed by the guest's resource wildcard. */
  lemma GuestAllowedOtherRoutes(acl: Acl)
    requires acl.table.entries == GuestAdminGrants()
    ensures IsAllowed(acl, "Guest", "routes", "list").1
  {
    var g := FindAccess(acl.table.entries, "Guest", "routes", "list");
    assert Key("Guest", Tiers("routes", "list")[1]) in acl.table.entries;
    assert g.value.key == Key("Guest", Endpoint("routes", "*"));
    OwnGrantDecides(acl, "Guest", "routes", "list");
  }

  /** The administrator's own `*!*` decides before the guest's deny is
      ever consulted, and it carries no rules. */
  lemma AdminAllowedProfile(acl: Acl)
    requires acl.table.entries == GuestAdminGrants()
    ensures IsAllowed(acl, "Admin", "routes", "profile").1
    ensures GetMatchedRules(IsAllowed(acl, "Admin", "routes", "profile").0) == None
  {
    var a := FindAccess(acl.table.entries, "Admin", "routes", "profile");
    assert Key("Admin", Tiers("routes", "profile")[3]) in acl.table.entries;
    assert a.value.key == Key("Admin", Endpoint("*", "*"));
    OwnGrantDecides(acl, "Admin", "routes", "profile");
  }

  /** Of two roles, only the first is allowed: the answer lists it alone. */
  lemma FirstOfTwoGranted(acl: Acl, x: string, y: string, resource: string, action: string)
    requires IsAllowed(acl, x, resource, action).1 && !IsAllowed(acl, y, resource, action).1
    ensures Grantees(acl, [x, y], resource, action)
            == [(x, GetMatchedRules(IsAllowed(acl, x, resource, action).0))]
  {
    GranteesAppend(acl, [], x, resource, action);
    GranteesAppend(acl, [x], y, resource, action);
    assert [x, y] == [x] + [y];
    assert [x] == [] + [x];
  }

  /** The answers of the guest/administrator setup, including
      `whichRolesHaveAccess('routes', 'profile')`: only the administrator,
      with no rules, since its grant is a plain `true`. */
  lemma GuestAdminAnswers()
    ensures !IsAllowed(GuestAdmin(), "Guest", "routes", "profile").1
    ensures IsAllowed(GuestAdmin(), "Guest", "routes", "list").1
    ensures IsAllowed(GuestAdmin(), "Admin", "routes", "profile").1
    ensures Grantees(GuestAdmin(), GetRoles(GuestAdmin()), "routes", "profile") == [("Admin", None)]
  {
    GuestAdminTable();
    var acl := GuestAdmin();
    GuestDeniedProfile(acl);
    GuestAllowedOtherRoutes(acl);
    AdminAllowedProfile(acl);
    FirstOfTwoGranted(acl, "Admin", "Guest", "routes", "profile");
  }

  /** A list item of a payload becomes a `true` flag, and a payload allows
      even when one of its values is `false`. */
  lemma PayloadNormalisation()
    ensures ToGrant(Array([Flag("some")])).rules.entries == map["some" := Bool(true)]
    ensures Decision(ToGrant(Array([Entry("onlyUou", Bool(false))])))
  {
  }
}
