/**
 * The resolver: `findAccess` probes one role's grants in four tiers of
 * decreasing specificity, and `findInheritAccess` searches the role and then
 * its parents depth first, in declaration order, threading the set of roles
 * already processed through the whole search. The functions here read only
 * the parent map and the grant map.
 */
module Resolver {
  import opened Wrappers
  import opened Keys
  import opened Grants
  import opened Roles

  type ParentMap = map<string, seq<string>>
  type GrantMap = map<Key, Grant>

  /** A grant found by the search, with the key it is stored under. */
  datatype Hit = Hit(key: Key, grant: Grant)

  /** The outcome of a search and the processed roles it leaves behind
      (`$processedRoles`, passed by reference in the PHP code). */
  datatype Search = Search(hit: Option<Hit>, visited: set<string>)

  /** The endpoints `findAccess` probes, most specific first. */
  function Tiers(resource: string, action: string): seq<Endpoint> {
    [ Endpoint(resource, action),
      Endpoint(resource, Wildcard),
      Endpoint(Wildcard, action),
      Endpoint(Wildcard, Wildcard) ]
  }

  /** The grant of `role` at the first endpoint of `eps` that has one. */
  function FirstHit(grants: GrantMap, role: string, eps: seq<Endpoint>): (r: Option<Hit>)
    ensures r.None? <==> forall i :: 0 <= i < |eps| ==> Key(role, eps[i]) !in grants
    ensures r.Some? ==> r.value.key in grants && grants[r.value.key] == r.value.grant
    ensures r.Some? ==> exists i :: 0 <= i < |eps| && r.value.key == Key(role, eps[i])
                                    && forall j :: 0 <= j < i ==> Key(role, eps[j]) !in grants
  {
    if eps == [] then None
    else if Key(role, eps[0]) in grants then Some(Hit(Key(role, eps[0]), grants[Key(role, eps[0])]))
    else
      var r := FirstHit(grants, role, eps[1..]);
      assert forall i :: 1 <= i < |eps| ==> eps[i] == eps[1..][i - 1];
      r
  }

  /** `findAccess`: the role's own grant at the most specific tier that has
      one, whatever that grant is. */
  function FindAccess(grants: GrantMap, role: string, resource: string, action: string): (r: Option<Hit>)
    ensures r.None? <==> forall i :: 0 <= i < 4 ==> Key(role, Tiers(resource, action)[i]) !in grants
    ensures r.Some? ==> r.value.key.role == role
    ensures r.Some? ==> r.value.key in grants && grants[r.value.key] == r.value.grant
    ensures r.Some? ==> exists i :: 0 <= i < 4 && r.value.key == Key(role, Tiers(resource, action)[i])
                          && forall j :: 0 <= j < i ==> Key(role, Tiers(resource, action)[j]) !in grants
  {
    FirstHit(grants, role, Tiers(resource, action))
  }

  /** Every role named in the parent map, as a key or as a parent. */
  ghost function Nodes(parents: ParentMap): set<string> {
    parents.Keys + set r, p | r in parents && p in parents[r] :: p
  }

  lemma ParentIsNode(parents: ParentMap, owner: string, i: nat)
    requires i < |ParentsOf(parents, owner)|
    ensures ParentsOf(parents, owner)[i] in Nodes(parents)
    ensures Nodes(parents) + {ParentsOf(parents, owner)[i]} == Nodes(parents)
  {
    var p := parents[owner][i];
    assert p in parents[owner];
  }

  /** Visiting a new role leaves fewer unvisited roles. */
  lemma VisitShrinks(nodes: set<string>, visited: set<string>, role: string)
    requires role !in visited
    ensures |nodes - (visited + {role})| < |nodes + {role} - visited|
  {
    var after := nodes - (visited + {role});
    assert nodes + {role} - visited == after + {role};
  }

  /** A larger visited set leaves no more unvisited roles. */
  lemma {:induction false} MoreVisitedShrinks(nodes: set<string>, visited: set<string>, more: set<string>)
    requires visited <= more
    ensures |nodes - more| <= |nodes - visited|
  {
    var a := nodes - more;
    var b := nodes - visited;
    assert a <= b;
    SubsetCard(a, b);
  }

  lemma {:induction false} SubsetCard<T>(a: set<T>, b: set<T>)
    requires a <= b
    ensures |a| <= |b|
    decreases |b|
  {
    if a != {} {
      var x :| x in a;
      SubsetCard(a - {x}, b - {x});
    }
  }

  /** `findInheritAccess`. A role already processed yields nothing; otherwise
      it is marked processed, its own grant wins if it has one, and only then
      are its parents searched. */
  function FindInherit(parents: ParentMap, grants: GrantMap, role: string, resource: string,
                       action: string, visited: set<string>): (r: Search)
    ensures visited <= r.visited
    ensures role in r.visited
    ensures role in visited ==> r == Search(None, visited)
    ensures role !in visited && FindAccess(grants, role, resource, action).Some?
            ==> r.hit == FindAccess(grants, role, resource, action)
    ensures r.hit.Some? ==> r.hit.value.key in grants && grants[r.hit.value.key] == r.hit.value.grant
    ensures r.hit.Some? ==> r.hit.value.key.endpoint in Tiers(resource, action)
    decreases |Nodes(parents) + {role} - visited|, 0, 0
  {
    if role in visited then Search(None, visited)
    else
      var own := FindAccess(grants, role, resource, action);
      if own.Some? then Search(own, visited + {role})
      else
        VisitShrinks(Nodes(parents), visited, role);
        FindInParents(parents, grants, role, 0, resource, action, visited + {role})
  }

  /** The `foreach` over the parents of `owner` from index `i` on: the first
      parent whose search finds a grant decides, and each parent's search
      starts from the processed roles the previous one left behind. */
  function FindInParents(parents: ParentMap, grants: GrantMap, owner: string, i: nat,
                         resource: string, action: string, visited: set<string>): (r: Search)
    requires i <= |ParentsOf(parents, owner)|
    ensures visited <= r.visited
    ensures r.hit.Some? ==> r.hit.value.key in grants && grants[r.hit.value.key] == r.hit.value.grant
    ensures r.hit.Some? ==> r.hit.value.key.endpoint in Tiers(resource, action)
    decreases |Nodes(parents) - visited|, 1, |ParentsOf(parents, owner)| - i
  {
    var ps := ParentsOf(parents, owner);
    if i == |ps| then Search(None, visited)
    else
      ParentIsNode(parents, owner, i);
      var s := FindInherit(parents, grants, ps[i], resource, action, visited);
      if s.hit.Some? then s
      else
        MoreVisitedShrinks(Nodes(parents), visited, s.visited);
        FindInParents(parents, grants, owner, i + 1, resource, action, s.visited)
  }

  // Reachability through declared parents, the reference the search is
  // measured against.

  /** Each role of `path` lists the next one among its parents. */
  ghost predicate IsChain(parents: ParentMap, path: seq<string>) {
    && |path| >= 1
    && forall i :: 0 <= i < |path| - 1 ==> path[i + 1] in ParentsOf(parents, path[i])
  }

  /** `to` is `from` or one of its ancestors. */
  ghost predicate Reaches(parents: ParentMap, from: string, to: string) {
    exists path :: IsChain(parents, path) && path[0] == from && path[|path| - 1] == to
  }

  lemma ReachesSelf(parents: ParentMap, role: string)
    ensures Reaches(parents, role, role)
  {
    assert IsChain(parents, [role]);
  }

  lemma ReachesThroughParent(parents: ParentMap, role: string, parent: string, to: string)
    requires parent in ParentsOf(parents, role)
    requires Reaches(parents, parent, to)
    ensures Reaches(parents, role, to)
  {
    var path :| IsChain(parents, path) && path[0] == parent && path[|path| - 1] == to;
    var longer := [role] + path;
    assert forall i :: 1 <= i < |longer| ==> longer[i] == path[i - 1];
    assert IsChain(parents, longer);
  }

  /** The roles processed between `before` and `after` have no grant of their
      own for the query, and their parents were all processed too. */
  ghost predicate ExploredWithoutHit(parents: ParentMap, grants: GrantMap, resource: string,
                                     action: string, before: set<string>, after: set<string>) {
    forall x :: x in after && x !in before ==>
      && FindAccess(grants, x, resource, action).None?
      && forall p :: p in ParentsOf(parents, x) ==> p in after
  }

  /** A grant the search found belongs to `from` or one of its ancestors,
      and it is that role's own most specific grant. */
  ghost predicate Traced(parents: ParentMap, grants: GrantMap, from: string, r: Search,
                         resource: string, action: string) {
    r.hit.Some? ==>
      && Reaches(parents, from, r.hit.value.key.role)
      && FindAccess(grants, r.hit.value.key.role, resource, action) == r.hit
  }

  /** A search that finds nothing has explored a parent-closed region. */
  lemma {:induction false} MissIsClosed(parents: ParentMap, grants: GrantMap, role: string,
                                        resource: string, action: string, visited: set<string>)
    ensures var r := FindInherit(parents, grants, role, resource, action, visited);
            r.hit.None? ==> ExploredWithoutHit(parents, grants, resource, action, visited, r.visited)
    decreases |Nodes(parents) + {role} - visited|, 0, 0
  {
    if role !in visited && FindAccess(grants, role, resource, action).None? {
      VisitShrinks(Nodes(parents), visited, role);
      ParentsMissIsClosed(parents, grants, role, 0, resource, action, visited + {role});
      var ps := ParentsOf(parents, role);
      var r := FindInParents(parents, grants, role, 0, resource, action, visited + {role});
      if r.hit.None? {
        forall p | p in ps ensures p in r.visited {
          var j :| 0 <= j < |ps| && ps[j] == p;
        }
      }
    }
  }

  lemma {:induction false} ParentsMissIsClosed(parents: ParentMap, grants: GrantMap, owner: string,
                                               i: nat, resource: string, action: string,
                                               visited: set<string>)
    requires i <= |ParentsOf(parents, owner)|
    ensures var r := FindInParents(parents, grants, owner, i, resource, action, visited);
            r.hit.None? ==>
              && ExploredWithoutHit(parents, grants, resource, action, visited, r.visited)
              && forall j :: i <= j < |ParentsOf(parents, owner)| ==> ParentsOf(parents, owner)[j] in r.visited
    decreases |Nodes(parents) - visited|, 1, |ParentsOf(parents, owner)| - i
  {
    var ps := ParentsOf(parents, owner);
    if i < |ps| {
      ParentIsNode(parents, owner, i);
      var s := FindInherit(parents, grants, ps[i], resource, action, visited);
      MissIsClosed(parents, grants, ps[i], resource, action, visited);
      if s.hit.None? {
        MoreVisitedShrinks(Nodes(parents), visited, s.visited);
        ParentsMissIsClosed(parents, grants, owner, i + 1, resource, action, s.visited);
        ParentMissContinues(parents, grants, owner, i, resource, action, visited);
        var r := FindInParents(parents, grants, owner, i + 1, resource, action, s.visited);
        if r.hit.None? {
          ExploredTrans(parents, grants, resource, action, visited, s.visited, r.visited);
          assert ps[i] in r.visited;
        }
      }
    }
  }

  /** Two explorations without a hit, one after the other, are one. */
  lemma ExploredTrans(parents: ParentMap, grants: GrantMap, resource: string, action: string,
                      a: set<string>, b: set<string>, c: set<string>)
    requires b <= c
    requires ExploredWithoutHit(parents, grants, resource, action, a, b)
    requires ExploredWithoutHit(parents, grants, resource, action, b, c)
    ensures ExploredWithoutHit(parents, grants, resource, action, a, c)
  {
    forall x | x in c && x !in a
      ensures FindAccess(grants, x, resource, action).None?
      ensures forall p :: p in ParentsOf(parents, x) ==> p in c
    {
      if x in b {
        assert forall p :: p in ParentsOf(parents, x) ==> p in b;
      }
    }
  }

  /** A grant found by the search belongs to the queried role or one of its
      ancestors, and it is that role's own most specific grant. */
  lemma {:induction false} HitIsReachable(parents: ParentMap, grants: GrantMap, role: string,
                                          resource: string, action: string, visited: set<string>)
    ensures Traced(parents, grants, role, FindInherit(parents, grants, role, resource, action, visited),
                   resource, action)
    decreases |Nodes(parents) + {role} - visited|, 0, 0, 0
  {
    if role !in visited {
      if FindAccess(grants, role, resource, action).Some? {
        ReachesSelf(parents, role);
      } else {
        VisitShrinks(Nodes(parents), visited, role);
        ParentsHitIsReachable(parents, grants, role, 0, resource, action, visited + {role});
      }
    }
  }

  lemma {:induction false} ParentsHitIsReachable(parents: ParentMap, grants: GrantMap, owner: string,
                                                 i: nat, resource: string, action: string,
                                                 visited: set<string>)
    requires i <= |ParentsOf(parents, owner)|
    ensures Traced(parents, grants, owner, FindInParents(parents, grants, owner, i, resource, action, visited),
                   resource, action)
    decreases |Nodes(parents) - visited|, 1, |ParentsOf(parents, owner)| - i, 1
  {
    var ps := ParentsOf(parents, owner);
    if i < |ps| {
      ParentIsNode(parents, owner, i);
      if FindInherit(parents, grants, ps[i], resource, action, visited).hit.Some? {
        HitIsReachable(parents, grants, ps[i], resource, action, visited);
        ParentHitIsReachable(parents, grants, owner, i, resource, action, visited);
      } else {
        ParentMissThenReach(parents, grants, owner, i, resource, action, visited);
      }
    }
  }

  /** The parent at index `i` finds nothing: whatever the rest of the loop
      finds is traced to the owner. */
  lemma {:induction false} ParentMissThenReach(parents: ParentMap, grants: GrantMap, owner: string,
                                               i: nat, resource: string, action: string,
                                               visited: set<string>)
    requires i < |ParentsOf(parents, owner)|
    requires FindInherit(parents, grants, ParentsOf(parents, owner)[i], resource, action, visited).hit.None?
    ensures Traced(parents, grants, owner, FindInParents(parents, grants, owner, i, resource, action, visited),
                   resource, action)
    decreases |Nodes(parents) - visited|, 1, |ParentsOf(parents, owner)| - i, 0
  {
    var s := FindInherit(parents, grants, ParentsOf(parents, owner)[i], resource, action, visited);
    MoreVisitedShrinks(Nodes(parents), visited, s.visited);
    ParentsHitIsReachable(parents, grants, owner, i + 1, resource, action, s.visited);
    ParentMissContinues(parents, grants, owner, i, resource, action, visited);
  }

  /** The parent at index `i` finds a grant: it decides the loop, and its
      owner reaches the role that holds it. */
  lemma ParentHitIsReachable(parents: ParentMap, grants: GrantMap, owner: string, i: nat,
                             resource: string, action: string, visited: set<string>)
    requires i < |ParentsOf(parents, owner)|
    requires var s := FindInherit(parents, grants, ParentsOf(parents, owner)[i], resource, action, visited);
             s.hit.Some? && Traced(parents, grants, ParentsOf(parents, owner)[i], s, resource, action)
    ensures var r := FindInParents(parents, grants, owner, i, resource, action, visited);
            r.hit.Some? && Traced(parents, grants, owner, r, resource, action)
  {
    var p := ParentsOf(parents, owner)[i];
    var s := FindInherit(parents, grants, p, resource, action, visited);
    assert FindInParents(parents, grants, owner, i, resource, action, visited) == s;
    ReachesThroughParent(parents, owner, p, s.hit.value.key.role);
  }

  /** The parent at index `i` finds nothing: the loop goes on from the next
      parent with the roles that search processed. */
  lemma ParentMissContinues(parents: ParentMap, grants: GrantMap, owner: string, i: nat,
                            resource: string, action: string, visited: set<string>)
    requires i < |ParentsOf(parents, owner)|
    requires FindInherit(parents, grants, ParentsOf(parents, owner)[i], resource, action, visited).hit.None?
    ensures var s := FindInherit(parents, grants, ParentsOf(parents, owner)[i], resource, action, visited);
            FindInParents(parents, grants, owner, i, resource, action, visited)
            == FindInParents(parents, grants, owner, i + 1, resource, action, s.visited)
  {
  }

  /** Every role on a chain that starts in a parent-closed set stays in it. */
  lemma {:induction false} ChainStaysInside(parents: ParentMap, path: seq<string>, region: set<string>)
    requires IsChain(parents, path)
    requires path[0] in region
    requires forall x :: x in region ==> forall p :: p in ParentsOf(parents, x) ==> p in region
    ensures path[|path| - 1] in region
    decreases |path|
  {
    if |path| > 1 {
      var rest := path[1..];
      assert path[1] in ParentsOf(parents, path[0]);
      assert IsChain(parents, rest) by {
        forall i | 0 <= i < |rest| - 1 ensures rest[i + 1] in ParentsOf(parents, rest[i]) {
          assert rest[i] == path[i + 1] && rest[i + 1] == path[i + 2];
        }
      }
      ChainStaysInside(parents, rest, region);
    }
  }

  /** A query started with no processed roles finds nothing exactly when no
      role reachable from the queried one has a grant at any tier; mutual or
      longer inheritance cycles do not change this. */
  lemma NoMatchIffNoReachableGrant(parents: ParentMap, grants: GrantMap, role: string,
                                   resource: string, action: string)
    ensures FindInherit(parents, grants, role, resource, action, {}).hit.None?
            <==> forall b :: Reaches(parents, role, b) ==> FindAccess(grants, b, resource, action).None?
  {
    var r := FindInherit(parents, grants, role, resource, action, {});
    HitIsReachable(parents, grants, role, resource, action, {});
    if r.hit.None? {
      MissIsClosed(parents, grants, role, resource, action, {});
      forall b | Reaches(parents, role, b)
        ensures FindAccess(grants, b, resource, action).None?
      {
        var path :| IsChain(parents, path) && path[0] == role && path[|path| - 1] == b;
        ChainStaysInside(parents, path, r.visited);
      }
    }
  }

  // Depth-first order: once a parent decides, later parents are never read.

  /** The search does not read the parent list of a role already processed. */
  lemma {:induction false} SearchSkipsVisitedLists(p1: ParentMap, p2: ParentMap, grants: GrantMap,
                                                   role: string, resource: string, action: string,
                                                   visited: set<string>, skip: string)
    requires skip in visited
    requires forall x :: x != skip ==> ParentsOf(p1, x) == ParentsOf(p2, x)
    ensures FindInherit(p1, grants, role, resource, action, visited)
            == FindInherit(p2, grants, role, resource, action, visited)
    decreases |Nodes(p1) + {role} - visited|, 0, 0
  {
    if role !in visited && FindAccess(grants, role, resource, action).None? {
      VisitShrinks(Nodes(p1), visited, role);
      ParentsSkipVisitedLists(p1, p2, grants, role, 0, resource, action, visited + {role}, skip);
    }
  }

  lemma {:induction false} ParentsSkipVisitedLists(p1: ParentMap, p2: ParentMap, grants: GrantMap,
                                                   owner: string, i: nat, resource: string,
                                                   action: string, visited: set<string>, skip: string)
    requires skip in visited && owner != skip
    requires forall x :: x != skip ==> ParentsOf(p1, x) == ParentsOf(p2, x)
    requires i <= |ParentsOf(p1, owner)|
    ensures i <= |ParentsOf(p2, owner)|
    ensures FindInParents(p1, grants, owner, i, resource, action, visited)
            == FindInParents(p2, grants, owner, i, resource, action, visited)
    decreases |Nodes(p1) - visited|, 1, |ParentsOf(p1, owner)| - i
  {
    assert ParentsOf(p1, owner) == ParentsOf(p2, owner);
    var ps := ParentsOf(p1, owner);
    if i < |ps| {
      ParentIsNode(p1, owner, i);
      SearchSkipsVisitedLists(p1, p2, grants, ps[i], resource, action, visited, skip);
      var s := FindInherit(p1, grants, ps[i], resource, action, visited);
      if s.hit.None? {
        MoreVisitedShrinks(Nodes(p1), visited, s.visited);
        ParentsSkipVisitedLists(p1, p2, grants, owner, i + 1, resource, action, s.visited, skip);
      }
    }
  }

  lemma {:induction false} DecidedParentsIgnoreLaterOnes(p1: ParentMap, p2: ParentMap, grants: GrantMap,
                                                         owner: string, i: nat, resource: string,
                                                         action: string, visited: set<string>)
    requires owner in visited
    requires forall x :: x != owner ==> ParentsOf(p1, x) == ParentsOf(p2, x)
    requires |ParentsOf(p1, owner)| <= |ParentsOf(p2, owner)|
    requires ParentsOf(p2, owner)[..|ParentsOf(p1, owner)|] == ParentsOf(p1, owner)
    requires i <= |ParentsOf(p1, owner)|
    requires FindInParents(p1, grants, owner, i, resource, action, visited).hit.Some?
    ensures FindInParents(p2, grants, owner, i, resource, action, visited)
            == FindInParents(p1, grants, owner, i, resource, action, visited)
    decreases |ParentsOf(p1, owner)| - i
  {
    var ps := ParentsOf(p1, owner);
    assert i < |ps|;
    assert ParentsOf(p2, owner)[i] == ps[i];
    SearchSkipsVisitedLists(p1, p2, grants, ps[i], resource, action, visited, owner);
    var s := FindInherit(p1, grants, ps[i], resource, action, visited);
    if s.hit.None? {
      DecidedParentsIgnoreLaterOnes(p1, p2, grants, owner, i + 1, resource, action, s.visited);
    }
  }

  /** Parents declared after the ones that already decide a query never
      change its answer: the first parent with a result wins. */
  lemma LaterParentsNotConsulted(p1: ParentMap, p2: ParentMap, grants: GrantMap, role: string,
                                 resource: string, action: string, visited: set<string>)
    requires forall x :: x != role ==> ParentsOf(p1, x) == ParentsOf(p2, x)
    requires |ParentsOf(p1, role)| <= |ParentsOf(p2, role)|
    requires ParentsOf(p2, role)[..|ParentsOf(p1, role)|] == ParentsOf(p1, role)
    requires FindInherit(p1, grants, role, resource, action, visited).hit.Some?
    ensures FindInherit(p2, grants, role, resource, action, visited)
            == FindInherit(p1, grants, role, resource, action, visited)
  {
    if FindAccess(grants, role, resource, action).None? {
      DecidedParentsIgnoreLaterOnes(p1, p2, grants, role, 0, resource, action, visited + {role});
    }
  }
}
