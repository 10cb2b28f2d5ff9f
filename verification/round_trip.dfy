/**
 * `fromArray(toArray($acl))` on a fresh `Acl`: reloading the written config
 * gives back the same parent lists, the same set of roles and the same grant
 * table, as long as every role that holds a grant is registered (`toArray`
 * only writes registered roles). The registration order is not always kept.
 */
module ConfigRoundTrip {
  import opened Wrappers
  import OrderedMap
  import opened Keys
  import opened Grants
  import opened Roles
  import opened AccessControl
  import opened ConfigCodec

  /** Every role holding a grant is registered. */
  ghost predicate GrantedRolesRegistered(acl: Acl) {
    forall k :: k in acl.table.entries ==> k.role in acl.registry.names
  }

  /** The registry rebuilt from the roles `done` of `ra`: exactly their
      parent lists, and only roles that `ra` registers. */
  ghost predicate RegistryLoaded(ra: Registry, rb: Registry, done: seq<string>) {
    && (forall x :: x in rb.names ==> x in ra.names)
    && (forall x :: x in done ==> x in rb.names)
    && (forall x :: ParentsOf(rb.parents, x) == if x in done then ParentsOf(ra.parents, x) else [])
  }

  /** The table rebuilt from the roles `done`: exactly their grants. */
  ghost predicate TableLoaded(ta: map<Key, Grant>, tb: map<Key, Grant>, done: seq<string>) {
    && (forall k :: k in tb <==> k in ta && k.role in done)
    && (forall k :: k in tb ==> tb[k] == ta[k])
  }

  /** What reloading the first `j` roles of `toArray(a)` has rebuilt in `b`. */
  ghost predicate LoadedUpTo(a: Acl, b: Acl, j: nat)
    requires j <= |a.registry.names|
  {
    && AccessControl.Valid(b)
    && RegistryLoaded(a.registry, b.registry, a.registry.names[..j])
    && TableLoaded(a.table.entries, b.table.entries, a.registry.names[..j])
  }

  /** Registering one more role with its parent list from `ra`. */
  lemma RegistryStep(ra: Registry, rb: Registry, done: seq<string>, x: string)
    requires Roles.Valid(ra)
    requires x in ra.names && x !in done
    requires RegistryLoaded(ra, rb, done)
    ensures RegistryLoaded(ra, Roles.AddRole(rb, x, ParentsOf(ra.parents, x)), done + [x])
  {
    var ps := ParentsOf(ra.parents, x);
    var rb' := Roles.AddRole(rb, x, ps);
    assert x !in ps;
    WithoutAbsent(ps, x);
    assert ParentsOf(rb'.parents, x) == ps;
  }

  /** Loading the items of one more role whose keys and grants are exactly
      that role's grants in `ta`. */
  lemma TableStep(ta: map<Key, Grant>, tb: map<Key, Grant>, tb': map<Key, Grant>,
                  done: seq<string>, x: string, ks: seq<Key>, gs: seq<Grant>)
    requires x !in done && |ks| == |gs|
    requires TableLoaded(ta, tb, done)
    requires OrderedMap.Covers(tb, tb', ks)
    requires OrderedMap.LastWins(tb', ks, gs)
    requires forall k :: k in tb && k.role != x ==> tb'[k] == tb[k]
    requires forall i :: 0 <= i < |ks| ==> ks[i].role == x && ks[i] in ta && gs[i] == ta[ks[i]]
    requires forall k :: k in ta && k.role == x ==> k in ks
    requires OrderedMap.Distinct(ks)
    ensures TableLoaded(ta, tb', done + [x])
  {
    forall k ensures k in tb' <==> k in ta && k.role in done + [x] {
      if k in ks {
        var i :| 0 <= i < |ks| && ks[i] == k;
      }
    }
    forall k | k in tb' ensures tb'[k] == ta[k] {
      if k.role == x {
        var i :| 0 <= i < |ks| && ks[i] == k;
        assert ks[i] !in ks[i + 1..];
      }
    }
  }

  /** Reloading role `x` from `toArray(a)` copies its parent list. */
  lemma LoadRoleRegistry(a: Acl, b: Acl, done: seq<string>, x: string)
    requires AccessControl.Valid(a)
    requires x in a.registry.names && x !in done
    requires RegistryLoaded(a.registry, b.registry, done)
    ensures RegistryLoaded(a.registry, LoadRole(b, x, ExportRole(a, x)).registry, done + [x])
  {
    var spec := ExportRole(a, x);
    assert LoadRole(b, x, spec).registry == Roles.AddRole(b.registry, x, ParentsOf(a.registry.parents, x));
    RegistryStep(a.registry, b.registry, done, x);
  }

  /** Reloading role `x` from `toArray(a)` copies its grants. */
  lemma LoadRoleTable(a: Acl, b: Acl, done: seq<string>, x: string)
    requires AccessControl.Valid(a)
    requires x !in done
    requires TableLoaded(a.table.entries, b.table.entries, done)
    ensures TableLoaded(a.table.entries, LoadRole(b, x, ExportRole(a, x)).table.entries, done + [x])
  {
    var spec := ExportRole(a, x);
    var ks := ItemKeys(x, spec.items);
    var gs := ItemGrants(spec.items);
    assert forall i :: 0 <= i < |ks| ==> ks[i] == Key(x, spec.items[i].endpoint);
    assert forall i :: 0 <= i < |gs| ==> gs[i] == ToGrant(ItemAction(spec.items[i]));
    TableStep(a.table.entries, b.table.entries, LoadRole(b, x, spec).table.entries, done, x, ks, gs);
  }

  /** Loading one more role of `toArray(a)` keeps `LoadedUpTo`. */
  lemma LoadRoleStep(a: Acl, b: Acl, j: nat)
    requires AccessControl.Valid(a)
    requires j < |a.registry.names|
    requires LoadedUpTo(a, b, j)
    ensures LoadedUpTo(a, LoadRole(b, a.registry.names[j], ExportRole(a, a.registry.names[j])), j + 1)
  {
    var names := a.registry.names;
    OrderedMap.PrefixStep(names, j);
    OrderedMap.NotInPrefix(names, j);
    LoadRoleRegistry(a, b, names[..j], names[j]);
    LoadRoleTable(a, b, names[..j], names[j]);
  }

  /** `LoadedUpTo` holds for every prefix of `toArray(a)`. */
  lemma {:induction false} LoadedPrefix(a: Acl, j: nat)
    requires AccessControl.Valid(a)
    requires j <= |a.registry.names|
    ensures LoadedUpTo(a, FromArray(New(), ToArray(a)[..j]), j)
  {
    if j == 0 {
      assert ToArray(a)[..0] == [];
    } else {
      LoadedPrefix(a, j - 1);
      var config := ToArray(a);
      var b := FromArray(New(), config[..j - 1]);
      assert LoadedUpTo(a, b, j - 1);
      assert j - 1 < |a.registry.names|;
      var x := a.registry.names[j - 1];
      assert config[j - 1] == (x, ExportRole(a, x));
      FromArrayAppend(New(), config, j - 1);
      LoadRoleStep(a, b, j - 1);
    }
  }

  /** Loading one more entry of a config is one more `LoadRole`. */
  lemma FromArrayAppend(acl: Acl, config: Config, j: nat)
    requires j < |config|
    ensures FromArray(acl, config[..j + 1]) == LoadRole(FromArray(acl, config[..j]), config[j].0, config[j].1)
  {
    assert config[..j + 1][..j] == config[..j];
  }

  /** All roles reloaded: the parent map and the role set are rebuilt. */
  lemma RegistryRebuilt(ra: Registry, rb: Registry)
    requires Roles.Valid(ra) && Roles.Valid(rb)
    requires RegistryLoaded(ra, rb, ra.names)
    ensures rb.parents == ra.parents
    ensures forall x :: x in rb.names <==> x in ra.names
  {
    forall x ensures ParentsOf(rb.parents, x) == ParentsOf(ra.parents, x) {
      if x !in ra.names {
        assert x !in ra.parents;
      }
    }
    ParentsDetermineMap(rb, ra);
  }

  /** All granted roles reloaded: the grant map is rebuilt. */
  lemma TableRebuilt(ta: map<Key, Grant>, tb: map<Key, Grant>, done: seq<string>)
    requires TableLoaded(ta, tb, done)
    requires forall k :: k in ta ==> k.role in done
    ensures tb == ta
  {
  }

  /** Once every role is reloaded, the registry and the table are back. */
  lemma AllLoaded(a: Acl, b: Acl)
    requires AccessControl.Valid(a)
    requires GrantedRolesRegistered(a)
    requires LoadedUpTo(a, b, |a.registry.names|)
    ensures b.registry.parents == a.registry.parents
    ensures forall x :: x in b.registry.names <==> x in a.registry.names
    ensures b.table.entries == a.table.entries
  {
    assert a.registry.names[..|a.registry.names|] == a.registry.names;
    RegistryRebuilt(a.registry, b.registry);
    TableRebuilt(a.table.entries, b.table.entries, a.registry.names);
  }

  /** `LoadedUpTo` holds for the whole of `toArray(a)`. */
  lemma LoadedWhole(a: Acl)
    requires AccessControl.Valid(a)
    ensures LoadedUpTo(a, FromArray(New(), ToArray(a)), |a.registry.names|)
  {
    LoadedPrefix(a, |a.registry.names|);
    assert ToArray(a)[..|a.registry.names|] == ToArray(a);
  }

  /** The round trip of `toArray` and `fromArray`. */
  lemma RoundTrip(a: Acl)
    requires AccessControl.Valid(a)
    requires GrantedRolesRegistered(a)
    ensures var b := FromArray(New(), ToArray(a));
            && AccessControl.Valid(b)
            && b.registry.parents == a.registry.parents
            && (forall x :: x in b.registry.names <==> x in a.registry.names)
            && b.table.entries == a.table.entries
            && b.defaultAccess && b.matched.None?
  {
    LoadedWhole(a);
    AllLoaded(a, FromArray(New(), ToArray(a)));
  }

  /** The reloaded object answers every query as the original does once the
      default access, which the config does not carry, is set back. */
  lemma RoundTripSameAnswers(a: Acl, role: string, resource: string, action: string)
    requires AccessControl.Valid(a)
    requires GrantedRolesRegistered(a)
    ensures var b := SetDefaultAction(FromArray(New(), ToArray(a)), a.defaultAccess);
            IsAllowed(b, role, resource, action).1 == IsAllowed(a, role, resource, action).1
            && IsAllowed(b, role, resource, action).0.matched == IsAllowed(a, role, resource, action).0.matched
  {
    RoundTrip(a);
    var b := SetDefaultAction(FromArray(New(), ToArray(a)), a.defaultAccess);
    QueryReadsPolicyOnly(a, b, role, resource, action);
  }

  /** A grant of a role that was never registered (`allow` does not register
      it) is not written by `toArray`, so reloading loses it. */
  lemma UnregisteredGrantLost()
    ensures var a := Allow(New(), "X", "r", "a", []);
            && AccessControl.Valid(a)
            && Key("X", Endpoint("r", "a")) in a.table.entries
            && FromArray(New(), ToArray(a)).table.entries == map[]
  {
    var a := Allow(New(), "X", "r", "a", []);
    assert ToArray(a) == [];
  }

  /** Roles `A`, `B`, `C` registered in that order, with `C` a parent of `A`. */
  function ReorderExample(): Acl {
    Acl(true, Registry(["A", "B", "C"], map["A" := ["C"]]), OrderedMap.Empty(), None)
  }

  /** What `toArray` writes for `ReorderExample`. */
  function ReorderConfig(): Config {
    [("A", RoleSpec(Single("C"), [])), ("B", RoleSpec(NoParents, [])), ("C", RoleSpec(NoParents, []))]
  }

  lemma ReorderExport()
    ensures AccessControl.Valid(ReorderExample()) && GrantedRolesRegistered(ReorderExample())
    ensures ToArray(ReorderExample()) == ReorderConfig()
  {
    var config := ToArray(ReorderExample());
    assert config[0] == ("A", RoleSpec(Single("C"), []));
    assert config[1] == ("B", RoleSpec(NoParents, []));
    assert config[2] == ("C", RoleSpec(NoParents, []));
  }

  /** A first config entry with one parent and no grants registers the
      role and then its parent. */
  lemma FirstRoleWithParent(config: Config, x: string, p: string)
    requires |config| >= 1 && config[0] == (x, RoleSpec(Single(p), [])) && x != p
    ensures FromArray(New(), config[..1]).registry.names == [x, p]
  {
    FromArrayAppend(New(), config, 0);
    assert config[..0] == [];
    Roles.AddRoleWithParent(x, p);
  }

  /** A config entry without parents and grants registers its role at the
      end, or changes nothing when the role is already registered. */
  lemma BareRoleAppends(acl: Acl, config: Config, j: nat, role: string)
    requires j < |config| && config[j] == (role, RoleSpec(NoParents, []))
    ensures var before := FromArray(acl, config[..j]).registry.names;
            FromArray(acl, config[..j + 1]).registry.names
            == if role in before then before else before + [role]
  {
    FromArrayAppend(acl, config, j);
  }

  /** Reloading a config that starts with `A` (parent `C`), then `B`, then
      `C`: `C` is registered before `B`. */
  lemma ReloadReordered(config: Config)
    requires |config| == 3
    requires config[0] == ("A", RoleSpec(Single("C"), []))
    requires config[1] == ("B", RoleSpec(NoParents, []))
    requires config[2] == ("C", RoleSpec(NoParents, []))
    ensures FromArray(New(), config).registry.names == ["A", "C", "B"]
  {
    FirstRoleWithParent(config, "A", "C");
    BareRoleAppends(New(), config, 1, "B");
    BareRoleAppends(New(), config, 2, "C");
    ReorderedNames(FromArray(New(), config[..1]).registry.names,
                   FromArray(New(), config[..2]).registry.names,
                   FromArray(New(), config[..3]).registry.names);
    OrderedMap.WholePrefix(config);
  }

  /** The name lists after each of the three loads. */
  lemma ReorderedNames(n1: seq<string>, n2: seq<string>, n3: seq<string>)
    requires n1 == ["A", "C"]
    requires n2 == if "B" in n1 then n1 else n1 + ["B"]
    requires n3 == if "C" in n2 then n2 else n2 + ["C"]
    ensures n3 == ["A", "C", "B"]
  {
    assert "B" !in n1;
    assert n2[1] == "C";
  }

  /** The round trip need not keep the registration order: reloading `A`
      registers its parent `C` before `B` is reached. */
  lemma RoundTripCanReorder()
    ensures AccessControl.Valid(ReorderExample()) && GrantedRolesRegistered(ReorderExample())
    ensures ReorderExample().registry.names == ["A", "B", "C"]
    ensures FromArray(New(), ToArray(ReorderExample())).registry.names == ["A", "C", "B"]
  {
    ReorderExport();
    ReloadReordered(ToArray(ReorderExample()));
  }
}
