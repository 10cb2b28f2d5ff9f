# light-acl in Dafny

A Dafny model of the `Acl` class of the PHP library light-acl (`src/Acl.php`).
That class is a small role-based access-control evaluator with four parts:

- **Role registry.** `$_rolesNames` holds the registered names in insertion order. `$_roleInherits` holds an ordered parent list per role.
- **Grant table.** `$_access` maps `role!resource!action` to `true`, `false` or a payload array. Payloads are normalised when they are written.
- **Resolver.**
  - `findAccess` probes four tiers of decreasing specificity.
  - `findInheritAccess` searches the role, then its parents depth first in declaration order. It threads one set of processed roles through the whole search.
  - `isAllowed` maps what the search found to a decision and falls back to the default access.
  - `getMatchedAccessKey`, `getMatchedRules` and `whichRolesHaveAccess` expose which grant decided.
- **Config codec.** `fromArray` and `toArray` convert between the object and the nested config `role => [inherit, 'res!act', 'res!act' => value, ...]`.

The object is the immutable datatype `AccessControl.Acl`. Every PHP method that changes it is a function from the old value to the new one. A query returns the new object, with its matched key, together with its answer.

PHP arrays with string keys are modelled by `OrderedMap.OMap`. Writing to a key that is already present keeps its position, and a new key is appended. Both the grant table and the payload of a conditional grant are such maps.

Grants are keyed by the structured `Keys.Key(role, Endpoint(resource, action))`. The module `Keys` gives the `!`-joined text form and proves two facts about it:

- for names without `!`, the text names the same key;
- otherwise the text is ambiguous.

Files, in dependency order:

| file | module | what it holds |
|---|---|---|
| `wrappers.dfy` | `Wrappers` | `Option` |
| `ordered_map.dfy` | `OrderedMap` | ordered maps and shared sequence facts |
| `keys.dfy` | `Keys` | structured keys and their text form |
| `grants.dfy` | `Grants` | grant values and payload normalisation |
| `roles.dfy` | `Roles` | the role registry |
| `resolver.dfy` | `Resolver` | `findAccess` and `findInheritAccess`, and reachability |
| `acl.dfy` | `AccessControl` | the public operations of `Acl` |
| `config.dfy` | `ConfigCodec` | `fromArray` and `toArray` |
| `round_trip.dfy` | `ConfigRoundTrip` | the round trip and where it stops |
| `scenarios.dfy` | `Scenarios` | query outcomes in general and in concrete setups |

Two behaviours of the code make the config round trip weaker than a lossless one would be. The model follows the code in both:

- **Unregistered roles.** `toArray` writes only registered roles, and `allow`/`deny` do not register their role. So a grant held by a role that was never registered does not survive `fromArray(toArray(...))`. `ConfigRoundTrip.UnregisteredGrantLost` exhibits this, and `ConfigRoundTrip.RoundTrip` requires every granted role to be registered.
- **Default access.** `toArray` does not write the default access. The reloaded object therefore starts from `true`, and it answers like the original only once that default is set back (`ConfigRoundTrip.RoundTripSameAnswers`).

Neither contradicts the library's own tests, which load configs that register every granted role.

## Model

| member | source | states |
|---|---|---|
| OrderedMap.Put | src/Acl.php:207-211 | An array assignment stores the value under the key, leaves every other key's value alone, keeps a present key in place and appends a new key at the end; well-formedness (each key listed once) is preserved |
| OrderedMap.PutStep | src/Acl.php:201-208 | Extending a run of assignments by one more keeps two facts: the keys are those of the run, and each key holds the value of its last assignment |
| Keys.SplitFirst | src/Acl.php:99 | `explode('!', $key, 2)`: no split exactly when there is no separator; otherwise the head holds no separator and head, separator and tail rebuild the text |
| Keys.ParseKeyText | src/Acl.php:98-100 | When the role and resource hold no `!`, the stored text of a key reads back as that key: the role is what `toArray` splits off at the first `!`, and the rest splits at its first `!` into resource and action (a second split `toArray` does not make; it keeps `res!act` whole) |
| Keys.KeyTextInjective | src/Acl.php:211 | For `!`-free names, two keys with the same stored text are the same key, so a table keyed by `Key` behaves as the PHP table keyed by text |
| Keys.KeyTextAmbiguous | src/Acl.php:277 | With a `!` inside a name, two different role/endpoint pairs produce the same stored key |
| Grants.Normalize | src/Acl.php:197-209 | The normalised payload has exactly the names of the entries as keys. Each key holds the value of its last entry, and a list item counts as `true` |
| Grants.NormalizeKeepsOrder | src/Acl.php:200-208 | Entries with distinct names are normalised in their own order |
| Grants.NormalizeOrder | src/Acl.php:200-208 | For any entries, the normalised keys come in the order their names first occur: a repeated name keeps the position of its first entry |
| Grants.NormalizeAsEntries | src/Acl.php:112-117 | A normalised payload written back as keyed entries normalises to itself |
| Grants.ToGrant | src/Acl.php:194-211 | `true` is stored as an allow and `false` as a deny; exactly those two literals give them. Any array is stored as its normalised payload |
| Grants.ActionOf | src/Acl.php:114-117 | The value `toArray` writes for a grant stores that same grant when written again |
| Grants.Decision | src/Acl.php:333-339 | Only a stored `false` denies; `true` and any payload (even one holding `false` values) allow |
| Grants.Write | src/Acl.php:211 | The key holds the normalised action afterwards; every other key is present and valued as before |
| Roles.Register | src/Acl.php:222 | The name becomes registered: the names are unchanged when it is present and gain it at the end otherwise; the parent lists are untouched |
| Roles.AddInherit | src/Acl.php:235-248 | The names gain the role and then the parent at the end, each only if new (the parent not when it is the role). The parent is appended to the role's list unless it is the role itself, no other role's list changes, and registry validity is preserved |
| Roles.AddInherits | src/Acl.php:224-225 | Adding each parent in turn registers the role (when there is a parent) and every parent, and keeps the names already registered in front. For a registered role, the new parents are appended in the order they first occur in the list |
| Roles.AddInheritsAppends | src/Acl.php:224-225 | The role's parent list grows by the given parents in order, minus the role itself |
| Roles.AddRole | src/Acl.php:220-228 | The names become the known names followed by the role and then its parents, each new name once, in the order first met. The role's list gains the parents other than itself (so repeated registration accumulates), and no other list changes |
| Roles.InheritOf | src/Acl.php:104-107 | The inherit slot lists the role's parents: null exactly when it has none, a single name exactly when it has one |
| Roles.AddRoleWithParent | src/Acl.php:220-248 | Adding a role with one other parent to an empty registry registers the role and then the parent |
| Resolver.FirstHit | src/Acl.php:275-284 | Nothing is found exactly when no probed key is stored. Otherwise the result is the stored grant at the first probed key that exists |
| Resolver.FindAccess | src/Acl.php:266-285 | The role's own grant at the most specific of the four tiers that has one, whatever that grant is; nothing exactly when none of the four keys is stored |
| Resolver.FindInherit | src/Acl.php:294-317 | A processed role yields nothing and changes nothing. Otherwise the role becomes processed, its own grant wins if it has one, and any grant found is stored at one of the tiers |
| Resolver.FindInParents | src/Acl.php:306-316 | The parent loop only adds processed roles, and any grant it returns is stored at one of the tiers |
| Resolver.MissIsClosed | src/Acl.php:294-317 | A search that finds nothing processed only roles without a grant of their own, and it processed their parents too |
| Resolver.HitIsReachable | src/Acl.php:294-317 | A grant found belongs to the queried role or one of its ancestors, and it is that role's own most specific grant |
| Resolver.NoMatchIffNoReachableGrant | src/Acl.php:294-317 | A query finds nothing exactly when no role reachable through parent lists has a grant at any tier, inheritance cycles included |
| Resolver.SearchSkipsVisitedLists | src/Acl.php:296-297 | The search never reads the parent list of a role already processed |
| Resolver.LaterParentsNotConsulted | src/Acl.php:308-314 | Parents declared after the ones that already decide a query never change its result: the first parent with a result wins |
| AccessControl.New | src/Acl.php:5-9 | A new object has default access `true`, no roles, no grants and no matched key |
| AccessControl.SetDefaultAction | src/Acl.php:134-148 | `getDefaultAction` returns the value just set; nothing else changes |
| AccessControl.AllowOrDeny | src/Acl.php:194-213 | The key holds the normalised action and every other grant is kept. The registry is untouched, so the role is not registered |
| AccessControl.Allow | src/Acl.php:161-168 | Empty rules store `true`, other rules store their normalised payload; every other grant is kept |
| AccessControl.Deny | src/Acl.php:180-183 | The key holds `false`; every other grant is kept |
| AccessControl.AddRole | src/Acl.php:220-228 | Only the registry changes: the names become the known names followed by the role and then its parents, each new name once, in the order first met (a new role right after the known names), and the role's list gains the parents other than itself |
| AccessControl.AddInherit | src/Acl.php:235-248 | Only the registry changes: the names gain the role and then the parent at the end, each only if new, and the parent is appended to the role's list unless it is the role itself |
| AccessControl.GetRoles | src/Acl.php:255-258 | The registered names, each once, in registration order |
| AccessControl.IsAllowed | src/Acl.php:327-340 | Only the matched key changes. With no match the default decides; with a match the answer is false exactly for a stored `false`. A match exists exactly when a role reachable from the queried one has a grant at some tier |
| AccessControl.QueryReadsPolicyOnly | src/Acl.php:327-340 | Two objects with the same parent lists, grants and default give the same answer and the same match |
| AccessControl.IsAllowedIgnoresMatched | src/Acl.php:329-331 | A query does not depend on the key a previous query matched |
| AccessControl.GetMatchedAccessKey | src/Acl.php:347-350 | Present exactly when a key matched, and for `!`-free names it reads back as that key |
| AccessControl.GetMatchedRules | src/Acl.php:357-361 | The payload stored under the matched key; nothing when no key matched or the grant there is a boolean |
| AccessControl.MatchedRulesAfterQuery | src/Acl.php:327-361 | After a query, matched rules exist only for an allowed answer. They are absent when the default decided or when a boolean grant decided |
| AccessControl.Grantees | src/Acl.php:379-382 | Every listed role is among the asked roles and is allowed, paired with that query's matched rules; every allowed role is listed |
| AccessControl.GranteesAppend | src/Acl.php:379-382 | One more role asked adds that role, with its matched rules, exactly when it is allowed |
| AccessControl.WhichRolesHaveAccess | src/Acl.php:373-388 | The answer for all registered roles, in registration order, and the object, with its previously matched key, is unchanged |
| ConfigCodec.LoadItems | src/Acl.php:78-83 | The table gains exactly the item keys of the role and each holds the grant of its last item. Every key no item writes, of this role or another, keeps its grant, and everything outside the table stays as it was |
| ConfigCodec.LoadRole | src/Acl.php:74-83 | One config entry registers the role as `addRole` would with its inherit slot, then loads its items; every key no item writes keeps its grant |
| ConfigCodec.FromArray | src/Acl.php:72-86 | Loading keeps the object valid and the default access and match. Names registered before stay in front, and every config role ends up registered |
| ConfigCodec.FromArrayOrder | src/Acl.php:72-86 | Loading registers, after the names known before, each new name in the order the config first mentions it, reading each role and then its inherit slot |
| ConfigCodec.ItemOf | src/Acl.php:114-117 | A stored `true` is written as a bare endpoint and anything else under its endpoint key; either way it reloads to the stored grant |
| ConfigCodec.ItemsOf | src/Acl.php:98-118 | The items are exactly the role's grants among the keys, each endpoint once, each reloading to the stored grant |
| ConfigCodec.ToArray | src/Acl.php:93-121 | One entry per registered role in registration order. The inherit slot lists its parents: null exactly when it has none, a single name exactly for one parent. The items are exactly its grants, each once, each reloading to the stored grant, and an item is bare exactly when its grant is `true` |
| ConfigRoundTrip.FromArrayAppend | src/Acl.php:74-84 | Loading one more config entry is one more role load on top of the earlier ones |
| ConfigRoundTrip.RoundTrip | src/Acl.php:72-121 | When every granted role is registered, reloading the written config rebuilds the same parent lists, the same set of roles and the same grants (key to grant; the order of the table's keys may differ) |
| ConfigRoundTrip.RoundTripSameAnswers | src/Acl.php:72-121 | With its default access set back, the reloaded object answers every query as the original does and matches the same key |
| ConfigRoundTrip.UnregisteredGrantLost | src/Acl.php:103-119 | A grant of a role never registered is not written out, so reloading loses it |
| ConfigRoundTrip.BareRoleAppends | src/Acl.php:222 | A config entry without parents or items registers its role at the end, or changes nothing if the role is known |
| ConfigRoundTrip.ReloadReordered | src/Acl.php:72-86 | Reloading `A` (parent `C`), `B`, `C` registers `A`, `C`, `B` |
| ConfigRoundTrip.RoundTripCanReorder | src/Acl.php:103-109 | A registry `A`, `B`, `C` with `C` a parent of `A` comes back as `A`, `C`, `B`: the round trip need not keep the registration order |
| Scenarios.OwnGrantDecides | src/Acl.php:301-304 | A role with its own grant at some tier is decided by its most specific grant; its parents are not consulted |
| Scenarios.ExactGrantDecides | src/Acl.php:268-280 | A grant at the exact endpoint decides the query and becomes the matched key |
| Scenarios.AllowThenAllowed | src/Acl.php:161-168 | After `allow` the same query is allowed |
| Scenarios.DenyThenDenied | test/AclTest.php:189-192 | After `deny` the same query is denied, matched by that key |
| Scenarios.WildcardAllowCoversActions | test/AclTest.php:172-178 | `allow(role, res, '*')` allows every action of `res` without an exact grant of the role |
| Scenarios.AddRoleRegistersInOrder | src/Acl.php:220-248 | For any three distinct names, `addRole(x, [p, q])` on a new object makes `getRoles` return `x`, `p`, `q` |
| Scenarios.MutualRolesParents | src/Acl.php:235-245 | Two roles added with each other as inherit slot name each other as parents |
| Scenarios.MutualRolesCycle | src/Acl.php:294-317 | Each of two mutually inheriting roles reaches the other |
| Scenarios.CycleFallsBackToDefault | src/Acl.php:296-297 | Mutually inheriting roles without grants: the search ends, the default decides and nothing is matched |
| Scenarios.GuestAdminTable | src/Acl.php:161-228 | The guest/administrator setup built with `allow`, `deny` and `addRole` holds exactly its three grants and registers the administrator before the guest, since `addRole` registers the role before its parent |
| Scenarios.GuestDeniedProfile | src/Acl.php:268-272 | The guest's exact deny wins over its own resource wildcard |
| Scenarios.GuestAllowedOtherRoutes | src/Acl.php:268-272 | The guest's resource wildcard allows routes without an exact grant |
| Scenarios.AdminAllowedProfile | src/Acl.php:301-304 | The administrator's own `*!*` decides before the guest's deny is reached, and carries no rules |
| Scenarios.FirstOfTwoGranted | src/Acl.php:379-382 | Of two roles, only the allowed one is listed, with its matched rules |
| Scenarios.GuestAdminAnswers | src/Acl.php:327-388 | The setup denies the guest's profile and allows its other routes and the administrator's profile; only the administrator, without rules, has access to the profile |
| Scenarios.PayloadNormalisation | test/AclTest.php:130-134 | A list item becomes a `true` flag, and a payload holding `false` still allows |

## Left out

- `src/AclArray.php` and `src/AclInterface.php`: text rendering of the config and bare method signatures, with no decision logic.
- `__toString`, `parse` and the constructor: thin wrappers over `AclArray::stringify` and `fromArray`.
- Object serialisation, which the library's tests compare: the round trip is stated as equality of parent lists, role set and grant table instead.
- Null grants (`'x!y' => null` in a config): `array_key_exists` records such a key and the search goes on. The model's grants are `true`, `false` or a payload only.
- Scalar payloads other than booleans: the action is a boolean or an array.
- PHP's coercion of numeric-string keys to integers, in role names and payload names.
- Resolver.FindInherit: tests whether a role was processed by exact string equality. The PHP code calls `in_array` without its strict flag, so it compares loosely, and two different numeric strings such as `"1"` and `"01"` count as the same role there. A parent whose name equals an already processed role in that loose sense is skipped by the PHP code but searched by the model. Names that are not numeric strings are compared exactly in both.
- Grants.Normalize: a list item of a payload is a string name only. The PHP code turns any list value into a key: an integer stays an integer key, `true`, `false` and `null` become `1`, `0` and `""`, and a nested array is rejected, as an error or as a skipped entry with a warning depending on the PHP version. None of these are modelled.
- Names containing `!`: the model keys grants structurally. `Keys` shows that the text form agrees for `!`-free names and is ambiguous otherwise.
- Config items whose endpoint holds no `!`, such as `'routes'`: `fromArray` stores them under `role!routes`, no query ever matches them, and `toArray` writes them back unchanged. The model's structured `Endpoint` always has a resource and an action, so such an item is not represented.
- `array_shift` on a role's config array takes the first element as the inherit slot whatever it is. The model's `RoleSpec` keeps the inherit slot apart from the items, so a config whose first element is a grant is not represented.
- The values inside a payload are opaque (`Grants.Value`); only the list-item-to-flag normalisation is modelled.
- ConfigCodec.ToArray: requires the object invariant `AccessControl.Valid`, which `New` establishes and every operation preserves. An object built otherwise is not covered.
- ConfigRoundTrip.RoundTrip: states equality of the role set, not of the registration order, because the code does not keep that order (`ConfigRoundTrip.RoundTripCanReorder`).
- ConfigRoundTrip.RoundTrip: states equality of the grants, not of the order of the table's keys. The reload writes the grants role by role in registration order, so a table whose keys were written in another order comes back reordered. Queries do not read that order (`AccessControl.QueryReadsPolicyOnly`).
- AccessControl.Grantees: does not state the order of the answer by itself. The order follows from `AccessControl.GranteesAppend` and `AccessControl.WhichRolesHaveAccess`.
- The six-role fixture of the library's tests is not evaluated as a whole. Its individual behaviours (tier order, inheritance order, deny over wildcard, payload rules, `whichRolesHaveAccess`) are stated in general in `Resolver` and `AccessControl`, and on the smaller guest/administrator setup in `Scenarios`.
