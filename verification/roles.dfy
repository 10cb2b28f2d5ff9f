/**
 * The role registry: `$_rolesNames`, the registered names in insertion
 * order, and `$_roleInherits`, the ordered parent list of each role that has
 * parents. Roles are registered by `addRole` and `addInherit` only.
 */
module Roles {
  import opened OrderedMap

  /** The inherit slot of `addRole` and of a config entry: `null`, one name,
      or an array of names. */
  datatype Inherit = NoParents | Single(name: string) | Several(names: seq<string>)

  datatype Registry = Registry(names: seq<string>, parents: map<string, seq<string>>)

  /** `(array)$accessInherits`. */
  function ParentList(spec: Inherit): seq<string> {
    match spec
    case NoParents => []
    case Single(p) => [p]
    case Several(ps) => ps
  }

  /** `$this->_roleInherits[$roleName] ?? []`. */
  function ParentsOf(parents: map<string, seq<string>>, role: string): seq<string> {
    if role in parents then parents[role] else []
  }

  /** What every sequence of registry calls keeps true: names are unique, a
      role with a parent list is registered, its list is not empty, and every
      parent is registered and differs from the role. */
  ghost predicate Valid(reg: Registry) {
    && Distinct(reg.names)
    && forall r :: r in reg.parents ==>
         && r in reg.names
         && reg.parents[r] != []
         && forall p :: p in reg.parents[r] ==> p in reg.names && p != r
  }

  function Empty(): (r: Registry)
    ensures Valid(r)
    ensures r.names == [] && r.parents == map[]
  {
    Registry([], map[])
  }

  /** `$this->_rolesNames[$roleName] = true`: a name already present keeps its
      position, a new one is appended. */
  function Register(reg: Registry, role: string): (r: Registry)
    ensures Valid(reg) ==> Valid(r)
    ensures r.parents == reg.parents
    ensures forall x :: x in r.names <==> x in reg.names || x == role
    ensures |reg.names| <= |r.names| && r.names[..|reg.names|] == reg.names
    ensures r.names == reg.names + (if role in reg.names then [] else [role])
  {
    if role in reg.names then reg
    else reg.(names := reg.names + [role])
  }

  /** `addInherit`: registers both names, then appends the parent to the
      role's list unless it is the role itself. */
  function AddInherit(reg: Registry, role: string, parent: string): (r: Registry)
    ensures Valid(reg) ==> Valid(r)
    ensures forall x :: x in r.names <==> x in reg.names || x == role || x == parent
    ensures |reg.names| <= |r.names| && r.names[..|reg.names|] == reg.names
    ensures r.names == reg.names + (if role in reg.names then [] else [role])
                                 + (if parent in reg.names || parent == role then [] else [parent])
    ensures ParentsOf(r.parents, role)
            == ParentsOf(reg.parents, role) + (if role == parent then [] else [parent])
    ensures role in r.parents <==> role in reg.parents || role != parent
    ensures forall x :: x != role ==> (x in r.parents <==> x in reg.parents)
    ensures forall x :: x != role ==> ParentsOf(r.parents, x) == ParentsOf(reg.parents, x)
  {
    var known := Register(Register(reg, role), parent);
    PrefixTrans(reg.names, Register(reg, role).names, known.names);
    if role == parent then known
    else
      AppendParentKeepsValid(known, role, parent);
      known.(parents := known.parents[role := ParentsOf(known.parents, role) + [parent]])
  }

  /** Appending a registered parent to a registered role's list keeps the
      registry valid. */
  lemma AppendParentKeepsValid(reg: Registry, role: string, parent: string)
    requires role in reg.names && parent in reg.names && role != parent
    ensures Valid(reg) ==> Valid(reg.(parents := reg.parents[role := ParentsOf(reg.parents, role) + [parent]]))
  {
  }

  /** The list `ps` without the entries equal to `role`. */
  function Without(ps: seq<string>, role: string): (r: seq<string>)
    ensures forall x :: x in r <==> x in ps && x != role
  {
    if ps == [] then []
    else (if ps[0] == role then [] else [ps[0]]) + Without(ps[1..], role)
  }

  /** A list that does not name the role loses nothing. */
  lemma {:induction false} WithoutAbsent(ps: seq<string>, role: string)
    requires role !in ps
    ensures Without(ps, role) == ps
  {
    if ps != [] {
      WithoutAbsent(ps[1..], role);
      assert ps == [ps[0]] + ps[1..];
    }
  }

  /** The loop of `addRole` over the parent list. */
  function AddInherits(reg: Registry, role: string, ps: seq<string>): (r: Registry)
    ensures Valid(reg) ==> Valid(r)
    ensures forall x :: x in r.names <==> x in reg.names || (x == role && ps != []) || x in ps
    ensures |reg.names| <= |r.names| && r.names[..|reg.names|] == reg.names
    ensures role in r.parents <==> role in reg.parents || Without(ps, role) != []
    ensures forall x :: x != role ==> (x in r.parents <==> x in reg.parents)
    ensures forall x :: x != role ==> ParentsOf(r.parents, x) == ParentsOf(reg.parents, x)
    ensures role in reg.names && Distinct(reg.names) ==> r.names == FirstOccurrences(reg.names + ps)
    decreases |ps|
  {
    if ps == [] then
      FirstOccurrencesOfDistinct(reg.names);
      assert reg.names + ps == reg.names;
      reg
    else
      var mid := AddInherit(reg, role, ps[0]);
      var r := AddInherits(mid, role, ps[1..]);
      AddInheritsStep(reg, mid, r, role, ps, ps[1..]);
      AddInheritsOrderStep(reg.names, mid.names, r.names, role, ps, ps[1..]);
      r
  }

  /** Registering the first parent and then the rest registers the new names
      in the order they first occur. */
  lemma AddInheritsOrderStep(before: seq<string>, mid: seq<string>, after: seq<string>, role: string,
                             ps: seq<string>, rest: seq<string>)
    requires ps != [] && rest == ps[1..]
    requires role in before ==> mid == before + (if ps[0] in before || ps[0] == role then [] else [ps[0]])
    requires role in mid && Distinct(mid) ==> after == FirstOccurrences(mid + rest)
    ensures role in before && Distinct(before) ==> after == FirstOccurrences(before + ps)
  {
    if role in before && Distinct(before) {
      var front := before + [ps[0]];
      assert mid == FirstOccurrences(front) by {
        FirstOccurrencesAppend(before, ps[0]);
        FirstOccurrencesOfDistinct(before);
      }
      assert front + rest == before + ps;
      FirstOccurrencesFlatten(front, rest);
    }
  }

  lemma AddInheritsStep(reg: Registry, mid: Registry, r: Registry, role: string, ps: seq<string>, rest: seq<string>)
    requires ps != [] && rest == ps[1..]
    requires forall x :: x in mid.names <==> x in reg.names || x == role || x == ps[0]
    requires |reg.names| <= |mid.names| && mid.names[..|reg.names|] == reg.names
    requires role in mid.parents <==> role in reg.parents || role != ps[0]
    requires forall x :: x in r.names <==> x in mid.names || (x == role && rest != []) || x in rest
    requires |mid.names| <= |r.names| && r.names[..|mid.names|] == mid.names
    requires role in r.parents <==> role in mid.parents || Without(rest, role) != []
    ensures forall x :: x in r.names <==> x in reg.names || x == role || x in ps
    ensures |reg.names| <= |r.names| && r.names[..|reg.names|] == reg.names
    ensures role in r.parents <==> role in reg.parents || Without(ps, role) != []
  {
    assert ps == [ps[0]] + rest;
    assert r.names[..|reg.names|] == mid.names[..|reg.names|];
  }

  /** The role's list grows by the given parents, in order, minus itself. */
  lemma {:induction false} AddInheritsAppends(reg: Registry, role: string, ps: seq<string>)
    ensures ParentsOf(AddInherits(reg, role, ps).parents, role)
            == ParentsOf(reg.parents, role) + Without(ps, role)
    decreases |ps|
  {
    if ps != [] {
      var next := AddInherit(reg, role, ps[0]);
      AddInheritsAppends(next, role, ps[1..]);
      var added: seq<string> := if role == ps[0] then [] else [ps[0]];
      assert ParentsOf(next.parents, role) == ParentsOf(reg.parents, role) + added;
      assert Without(ps, role) == added + Without(ps[1..], role);
      ConcatAssoc(ParentsOf(reg.parents, role), added, Without(ps[1..], role));
    }
  }

  /** `addRole`: registers the role, then adds each parent in order. A role
      registered again keeps its earlier parents and gains the new ones. */
  function AddRole(reg: Registry, role: string, ps: seq<string>): (r: Registry)
    ensures Valid(reg) ==> Valid(r)
    ensures forall x :: x in r.names <==> x in reg.names || x == role || x in ps
    ensures |reg.names| <= |r.names| && r.names[..|reg.names|] == reg.names
    ensures role !in reg.names ==> |r.names| > |reg.names| && r.names[|reg.names|] == role
    ensures ParentsOf(r.parents, role) == ParentsOf(reg.parents, role) + Without(ps, role)
    ensures role in r.parents <==> role in reg.parents || Without(ps, role) != []
    ensures forall x :: x != role ==> (x in r.parents <==> x in reg.parents)
    ensures forall x :: x != role ==> ParentsOf(r.parents, x) == ParentsOf(reg.parents, x)
    ensures Distinct(reg.names) ==> r.names == FirstOccurrences(reg.names + [role] + ps)
  {
    var known := Register(reg, role);
    var r := AddInherits(known, role, ps);
    AddInheritsAppends(known, role, ps);
    AddRoleOrder(reg.names, known.names, r.names, role, ps);
    assert r.names[..|known.names|] == known.names;
    assert role !in reg.names ==> known.names[|reg.names|] == role;
    r
  }

  /** Registering the role and then its parents registers the new names in
      the order they first occur. */
  lemma AddRoleOrder(before: seq<string>, known: seq<string>, after: seq<string>, role: string,
                     ps: seq<string>)
    requires known == before + (if role in before then [] else [role])
    requires role in known && Distinct(known) ==> after == FirstOccurrences(known + ps)
    ensures Distinct(before) ==> after == FirstOccurrences(before + [role] + ps)
  {
    if Distinct(before) {
      assert known == FirstOccurrences(before + [role]) by {
        FirstOccurrencesAppend(before, role);
        FirstOccurrencesOfDistinct(before);
      }
      FirstOccurrencesFlatten(before + [role], ps);
    }
  }

  /** The inherit slot `toArray` writes for a role: `null` without parents,
      the single name for exactly one parent, the list otherwise. Reading it
      back as `addRole` does gives the role's parent list. */
  function InheritOf(reg: Registry, role: string): (spec: Inherit)
    ensures ParentList(spec) == ParentsOf(reg.parents, role)
    ensures spec.NoParents? <==> role !in reg.parents
    ensures spec.Single? <==> role in reg.parents && |reg.parents[role]| == 1
  {
    if role !in reg.parents then NoParents
    else if |reg.parents[role]| == 1 then Single(reg.parents[role][0])
    else Several(reg.parents[role])
  }

  /** In valid registries the parent lists determine the parent map. */
  lemma ParentsDetermineMap(a: Registry, b: Registry)
    requires Valid(a) && Valid(b)
    requires forall x :: ParentsOf(a.parents, x) == ParentsOf(b.parents, x)
    ensures a.parents == b.parents
  {
    forall x
      ensures x in a.parents <==> x in b.parents
      ensures x in a.parents ==> a.parents[x] == b.parents[x]
    {
      assert ParentsOf(a.parents, x) == ParentsOf(b.parents, x);
    }
  }

  /** Adding a role with one other parent to the empty registry registers
      the role, then the parent. */
  lemma AddRoleWithParent(x: string, p: string)
    requires x != p
    ensures AddRole(Empty(), x, [p]).names == [x, p]
  {
    var known := Register(Empty(), x);
    assert known.names == [x];
    var r1 := AddInherit(known, x, p);
    assert Register(known, p).names == [x, p];
    assert r1.names == [x, p];
    assert AddInherits(known, x, [p]) == AddInherits(r1, x, []);
  }
}
