/**
 * The config codec: `fromArray` loads a nested config of the form
 * `role => [inherit, 'res!act', 'res!act' => value, ...]` into an `Acl`, and
 * `toArray` writes the registry and the grant table back in that form.
 */
module ConfigCodec {
  import opened Wrappers
  import OrderedMap
  import opened Keys
  import opened Grants
  import opened Roles
  import opened AccessControl

  /** An element after the inherit slot: a bare endpoint (integer key), which
      allows, or an endpoint key mapped to a boolean or a payload array. */
  datatype Item = Bare(endpoint: Endpoint) | Keyed(endpoint: Endpoint, action: RawAction)

  /** The array of one role: the inherit slot, then the items. */
  datatype RoleSpec = RoleSpec(inherit: Inherit, items: seq<Item>)

  type Config = seq<(string, RoleSpec)>

  /** `is_int($key) ? true : $val`. */
  function ItemAction(item: Item): RawAction {
    match item
    case Bare(_) => Literal(true)
    case Keyed(_, a) => a
  }

  /** The grant keys the items of `role` write, in item order. */
  function ItemKeys(role: string, items: seq<Item>): seq<Key> {
    seq(|items|, j requires 0 <= j < |items| => Key(role, items[j].endpoint))
  }

  /** The grants the items write, in item order. */
  function ItemGrants(items: seq<Item>): seq<Grant> {
    seq(|items|, j requires 0 <= j < |items| => ToGrant(ItemAction(items[j])))
  }

  /** The item loop of `fromArray` for one role: each item is written with
      `_allowOrDeny` in order, so the table gains exactly the item keys and
      an endpoint named more than once holds the grant of its last item. */
  function LoadItems(acl: Acl, role: string, items: seq<Item>): (r: Acl)
    ensures AccessControl.Valid(acl) ==> AccessControl.Valid(r)
    ensures r.(table := acl.table) == acl
    ensures OrderedMap.Covers(acl.table.entries, r.table.entries, ItemKeys(role, items))
    ensures OrderedMap.LastWins(r.table.entries, ItemKeys(role, items), ItemGrants(items))
    ensures forall k :: k in acl.table.entries && k.role != role ==> r.table.entries[k] == acl.table.entries[k]
    ensures forall k :: k in acl.table.entries && k !in ItemKeys(role, items) ==> r.table.entries[k] == acl.table.entries[k]
  {
    if items == [] then acl
    else
      var n := |items| - 1;
      var prev := LoadItems(acl, role, items[..n]);
      var r := AllowOrDeny(prev, role, items[n].endpoint, ItemAction(items[n]));
      assert r.table.entries == prev.table.entries[Key(role, items[n].endpoint) := ToGrant(ItemAction(items[n]))];
      assert ItemKeys(role, items)[..n] == ItemKeys(role, items[..n]);
      assert ItemGrants(items)[..n] == ItemGrants(items[..n]);
      OrderedMap.PutStep(acl.table.entries, prev.table.entries, ItemKeys(role, items), ItemGrants(items));
      r
  }

  /** One role of `fromArray`: `addRole` with the inherit slot, then the items. */
  function LoadRole(acl: Acl, role: string, spec: RoleSpec): (r: Acl)
    ensures AccessControl.Valid(acl) ==> AccessControl.Valid(r)
    ensures r.defaultAccess == acl.defaultAccess && r.matched == acl.matched
    ensures r.registry == AccessControl.AddRole(acl, role, spec.inherit).registry
    ensures OrderedMap.Covers(acl.table.entries, r.table.entries, ItemKeys(role, spec.items))
    ensures OrderedMap.LastWins(r.table.entries, ItemKeys(role, spec.items), ItemGrants(spec.items))
    ensures forall k :: k in acl.table.entries && k.role != role ==> r.table.entries[k] == acl.table.entries[k]
    ensures forall k :: k in acl.table.entries && k !in ItemKeys(role, spec.items) ==> r.table.entries[k] == acl.table.entries[k]
  {
    LoadItems(AccessControl.AddRole(acl, role, spec.inherit), role, spec.items)
  }

  /** `fromArray`: loads the roles in config order. Loading only adds: the
      default access and the matched key are untouched and every config role
      ends up registered after the names known before. */
  function FromArray(acl: Acl, config: Config): (r: Acl)
    ensures AccessControl.Valid(acl) ==> AccessControl.Valid(r)
    ensures r.defaultAccess == acl.defaultAccess && r.matched == acl.matched
    ensures |acl.registry.names| <= |r.registry.names|
    ensures r.registry.names[..|acl.registry.names|] == acl.registry.names
    ensures forall i :: 0 <= i < |config| ==> config[i].0 in r.registry.names
  {
    if config == [] then acl
    else
      var n := |config| - 1;
      var prev := FromArray(acl, config[..n]);
      var r := LoadRole(prev, config[n].0, config[n].1);
      FromArrayStep(acl.registry.names, prev.registry.names, r.registry.names, config, config[..n]);
      r
  }

  /** The names `fromArray` registers for `config`, in the order it meets
      them and with repeats: each role, then the parents of its inherit slot. */
  function LoadedNames(config: Config): seq<string> {
    if config == [] then []
    else
      var n := |config| - 1;
      LoadedNames(config[..n]) + [config[n].0] + ParentList(config[n].1.inherit)
  }

  /** Loading a config registers the names it meets that are new, in the
      order it first meets them, after the names known before. */
  lemma {:induction false} FromArrayOrder(acl: Acl, config: Config)
    ensures OrderedMap.Distinct(acl.registry.names)
            ==> FromArray(acl, config).registry.names
                == OrderedMap.FirstOccurrences(acl.registry.names + LoadedNames(config))
  {
    var before := acl.registry.names;
    if OrderedMap.Distinct(before) {
      if config == [] {
        OrderedMap.FirstOccurrencesOfDistinct(before);
        assert before + LoadedNames(config) == before;
      } else {
        var n := |config| - 1;
        var front := config[..n];
        FromArrayOrder(acl, front);
        var prev := FromArray(acl, front);
        var next := LoadRole(prev, config[n].0, config[n].1);
        assert FromArray(acl, config) == next;
        FromArrayOrderStep(before, LoadedNames(front), prev.registry.names, next.registry.names,
                           config[n].0, ParentList(config[n].1.inherit));
      }
    }
  }

  /** One more role: its name and parents join the names met so far. */
  lemma FromArrayOrderStep(before: seq<string>, met: seq<string>, prev: seq<string>, after: seq<string>,
                           role: string, ps: seq<string>)
    requires prev == OrderedMap.FirstOccurrences(before + met)
    requires OrderedMap.Distinct(prev) ==> after == OrderedMap.FirstOccurrences(prev + [role] + ps)
    ensures after == OrderedMap.FirstOccurrences(before + (met + [role] + ps))
  {
    OrderedMap.FirstOccurrencesFlatten(before + met, [role] + ps);
    assert prev + [role] + ps == prev + ([role] + ps);
    assert before + (met + [role] + ps) == before + met + ([role] + ps);
  }

  /** One role of `fromArray` in terms of the name lists before the load,
      before the last role and after it. */
  lemma FromArrayStep(before: seq<string>, prev: seq<string>, after: seq<string>, config: Config, front: Config)
    requires config != [] && front == config[..|config| - 1]
    requires |before| <= |prev| && prev[..|before|] == before
    requires forall i :: 0 <= i < |front| ==> front[i].0 in prev
    requires |prev| <= |after| && after[..|prev|] == prev
    requires config[|config| - 1].0 in after
    ensures |before| <= |after| && after[..|before|] == before
    ensures forall i :: 0 <= i < |config| ==> config[i].0 in after
  {
    OrderedMap.PrefixTrans(before, prev, after);
    forall i | 0 <= i < |config| - 1 ensures config[i].0 in after {
      assert front[i] == config[i];
      var k :| 0 <= k < |prev| && prev[k] == config[i].0;
      assert after[k] == prev[k];
    }
  }

  /** The element `toArray` writes for one grant of a role: an endpoint
      stored as `true` becomes a bare (integer-keyed) endpoint, anything else
      is written under its endpoint key. */
  function ItemOf(endpoint: Endpoint, g: Grant): (item: Item)
    requires ValidGrant(g)
    ensures item.endpoint == endpoint
    ensures ToGrant(ItemAction(item)) == g
    ensures item.Bare? <==> g == Permit
  {
    if g == Permit then Bare(endpoint) else Keyed(endpoint, ActionOf(g))
  }

  /** The grants of `role` among the keys `ks`, in key order: the
      `$permissions[$roleName]` bucket of `toArray`. Every item reloads to the
      stored grant, every key of the role is written, and no endpoint twice. */
  function ItemsOf(t: Table, ks: seq<Key>, role: string): (items: seq<Item>)
    requires forall k :: k in ks ==> k in t.entries && ValidGrant(t.entries[k])
    ensures forall j :: 0 <= j < |items| ==> Key(role, items[j].endpoint) in ks
    ensures forall j :: 0 <= j < |items| ==>
              ToGrant(ItemAction(items[j])) == t.entries[Key(role, items[j].endpoint)]
    ensures forall j :: 0 <= j < |items| ==>
              (items[j].Bare? <==> t.entries[Key(role, items[j].endpoint)] == Permit)
    ensures forall k :: k in ks && k.role == role ==> k in ItemKeys(role, items)
    ensures OrderedMap.Distinct(ks) ==> OrderedMap.Distinct(ItemKeys(role, items))
  {
    if ks == [] then []
    else
      var n := |ks| - 1;
      var prev := ItemsOf(t, ks[..n], role);
      var items := if ks[n].role == role then prev + [ItemOf(ks[n].endpoint, t.entries[ks[n]])] else prev;
      ItemsOfStep(t, ks, role, prev, items);
      items
  }

  lemma ItemsOfStep(t: Table, ks: seq<Key>, role: string, prev: seq<Item>, items: seq<Item>)
    requires ks != []
    requires forall k :: k in ks ==> k in t.entries && ValidGrant(t.entries[k])
    requires forall j :: 0 <= j < |prev| ==> Key(role, prev[j].endpoint) in ks[..|ks| - 1]
    requires forall k :: k in ks[..|ks| - 1] && k.role == role ==> k in ItemKeys(role, prev)
    requires OrderedMap.Distinct(ks[..|ks| - 1]) ==> OrderedMap.Distinct(ItemKeys(role, prev))
    requires items == if ks[|ks| - 1].role == role
                      then prev + [ItemOf(ks[|ks| - 1].endpoint, t.entries[ks[|ks| - 1]])]
                      else prev
    ensures forall j :: 0 <= j < |items| ==> Key(role, items[j].endpoint) in ks
    ensures forall k :: k in ks && k.role == role ==> k in ItemKeys(role, items)
    ensures OrderedMap.Distinct(ks) ==> OrderedMap.Distinct(ItemKeys(role, items))
  {
    var n := |ks| - 1;
    var last := ks[n];
    OrderedMap.SplitLast(ks);
    if last.role == role {
      var x := ItemOf(last.endpoint, t.entries[last]);
      ItemKeysAppend(role, prev, x);
      assert Key(role, x.endpoint) == last;
      forall j | 0 <= j < |items| ensures Key(role, items[j].endpoint) in ks {
        if j < |prev| {
          assert items[j] == prev[j];
        }
      }
      GrowKeys(ItemKeys(role, prev), ks[..n], last, role);
    } else {
      assert forall k :: k in ks && k.role == role ==> k in ks[..n];
    }
  }

  lemma ItemKeysAppend(role: string, items: seq<Item>, x: Item)
    ensures ItemKeys(role, items + [x]) == ItemKeys(role, items) + [Key(role, x.endpoint)]
  {
    assert forall j :: 0 <= j < |items| ==> (items + [x])[j] == items[j];
  }

  /** Appending the next key of `role` keeps the written keys complete and
      distinct. */
  lemma GrowKeys(written: seq<Key>, front: seq<Key>, last: Key, role: string)
    requires last.role == role
    requires forall k :: k in written ==> k in front
    requires forall k :: k in front && k.role == role ==> k in written
    requires OrderedMap.Distinct(front) ==> OrderedMap.Distinct(written)
    ensures forall k :: (k in front || k == last) && k.role == role ==> k in written + [last]
    ensures OrderedMap.Distinct(front) && last !in front ==> OrderedMap.Distinct(written + [last])
  {
    var w := written + [last];
    assert forall j :: 0 <= j < |written| ==> w[j] == written[j];
    assert w[|written|] == last;
  }

  /** The array `toArray` writes for one registered role: the inherit slot
      (null, one name, or the list) and the role's grants. */
  function ExportRole(acl: Acl, role: string): RoleSpec
    requires AccessControl.Valid(acl)
  {
    RoleSpec(InheritOf(acl.registry, role), ItemsOf(acl.table, acl.table.order, role))
  }

  /** `toArray`: one entry per registered role, in registration order; the
      inherit slot lists the role's parents; the items are exactly the role's
      grants, each endpoint once, and each reloads to the stored grant. */
  function ToArray(acl: Acl): (config: Config)
    requires AccessControl.Valid(acl)
    ensures |config| == |acl.registry.names|
    ensures forall i :: 0 <= i < |config| ==> config[i].0 == acl.registry.names[i]
    ensures forall i :: 0 <= i < |config| ==>
              ParentList(config[i].1.inherit) == ParentsOf(acl.registry.parents, config[i].0)
    ensures forall i :: 0 <= i < |config| ==>
              (config[i].1.inherit.NoParents? <==> config[i].0 !in acl.registry.parents)
    ensures forall i :: 0 <= i < |config| ==>
              (config[i].1.inherit.Single? <==> |ParentsOf(acl.registry.parents, config[i].0)| == 1)
    ensures forall i, j :: 0 <= i < |config| && 0 <= j < |config[i].1.items| ==>
              var k := Key(config[i].0, config[i].1.items[j].endpoint);
              k in acl.table.entries && (config[i].1.items[j].Bare? <==> acl.table.entries[k] == Permit)
    ensures forall i, j :: 0 <= i < |config| && 0 <= j < |config[i].1.items| ==>
              var k := Key(config[i].0, config[i].1.items[j].endpoint);
              k in acl.table.entries && ToGrant(ItemAction(config[i].1.items[j])) == acl.table.entries[k]
    ensures forall i, k :: 0 <= i < |config| && k in acl.table.entries && k.role == config[i].0 ==>
              k in ItemKeys(config[i].0, config[i].1.items)
    ensures forall i :: 0 <= i < |config| ==> OrderedMap.Distinct(ItemKeys(config[i].0, config[i].1.items))
  {
    seq(|acl.registry.names|, i requires 0 <= i < |acl.registry.names| =>
      (acl.registry.names[i], ExportRole(acl, acl.registry.names[i])))
  }
}
