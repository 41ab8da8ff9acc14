/**
 The dependency-closure builder of the depend-info command
 (`build_dependency_tree`): a depth-first walk over the catalog that fills a
 map from port name to the names of its core dependencies. A name is entered
 into the map before its dependencies are expanded, so a name already in the
 map is never visited again and the walk ends on cyclic catalogs.

 The properties are stated over the catalog's first-match index
 (`Ports.PortIndex`), which answers every lookup as the builder's linear
 scan does (`Ports.PortIndexAgrees`).
 */
module DependencyTree {
  import opened Ports

  type Tree = map<string, seq<string>>

  /** Name to core dependencies of the first port of that name. */
  type Index = map<string, seq<string>>

  /** Position `j` of `p` is a core dependency of the port before it. */
  ghost predicate StepAt(index: Index, p: seq<string>, j: nat)
    requires 0 < j < |p|
  {
    p[j - 1] in index && p[j] in index[p[j - 1]]
  }

  /**
   A walk through the catalog: every name on it names a port, and each step
   goes from a port to one of its core dependencies.
   */
  ghost predicate IsWalk(index: Index, p: seq<string>) {
    && |p| > 0
    && (forall j :: 0 <= j < |p| ==> p[j] in index)
    && (forall j :: 0 < j < |p| ==> StepAt(index, p, j))
  }

  /** `k` is a port reached from one of the roots by following core dependencies. */
  ghost predicate Reachable(index: Index, roots: seq<string>, k: string) {
    exists p :: IsWalk(index, p) && p[0] in roots && p[|p| - 1] == k
  }

  /** No name on the walk is one of `avoid`. */
  ghost predicate Avoids(p: seq<string>, avoid: set<string>) {
    forall j :: 0 <= j < |p| ==> p[j] !in avoid
  }

  /**
   `k` is reached from one of the roots by a walk that never passes through a
   name of `avoid`. With `avoid` the keys of the map the builder was given,
   these are the ports it adds: a name that is already a key is skipped and
   its dependencies are not followed from there.
   */
  ghost predicate ReachableAvoiding(index: Index, roots: seq<string>, avoid: set<string>, k: string) {
    exists p :: IsWalk(index, p) && p[0] in roots && p[|p| - 1] == k && Avoids(p, avoid)
  }

  /**
   What a dependency tree built from an empty map is: its keys are exactly
   the ports reachable from the roots, and each key maps to the core
   dependencies of the first port of that name.
   */
  ghost predicate IsDependencyTree(index: Index, roots: seq<string>, tree: Tree) {
    && (forall k :: k in tree <==> Reachable(index, roots, k))
    && (forall k :: k in tree ==> k in index && tree[k] == index[k])
  }

  /** A port among the roots is reachable from the roots (the one-name walk). */
  lemma RootReachable(index: Index, roots: seq<string>, n: string)
    requires n in roots && n in index
    ensures Reachable(index, roots, n)
  {
    assert IsWalk(index, [n]);
  }

  /** A port that a root depends on is reachable from the roots (the two-name walk). */
  lemma OneStepReachable(index: Index, roots: seq<string>, n: string, d: string)
    requires n in roots && n in index && d in index[n] && d in index
    ensures Reachable(index, roots, d)
  {
    var q := [n, d];
    assert StepAt(index, q, 1);
    assert IsWalk(index, q);
  }

  /** A root that names a port and is not to be avoided is reached by its one-name walk. */
  lemma RootReachableAvoiding(index: Index, roots: seq<string>, avoid: set<string>, n: string)
    requires n in roots && n in index && n !in avoid
    ensures ReachableAvoiding(index, roots, avoid, n)
  {
    assert IsWalk(index, [n]) && Avoids([n], avoid);
  }

  /**
   What a root's dependencies reach while avoiding a larger set, the roots
   reach through that root while avoiding the smaller set.
   */
  lemma ReachableThroughRoot(index: Index, roots: seq<string>, avoid: set<string>, inner: set<string>, n: string, k: string)
    requires n in roots && n in index && n !in avoid && avoid <= inner
    requires ReachableAvoiding(index, index[n], inner, k)
    ensures ReachableAvoiding(index, roots, avoid, k)
  {
    var p :| IsWalk(index, p) && p[0] in index[n] && p[|p| - 1] == k && Avoids(p, inner);
    var q := [n] + p;
    forall j | 0 < j < |q|
      ensures StepAt(index, q, j)
    {
      if j > 1 {
        assert StepAt(index, p, j - 1);
      }
    }
    forall j | 0 < j < |q|
      ensures q[j] !in avoid
    {
      assert q[j] == p[j - 1];
    }
    assert IsWalk(index, q) && Avoids(q, avoid);
  }

  /** Adding a port name that is not yet a key shrinks the set of unvisited names. */
  lemma UnvisitedShrinks(names: set<string>, visited0: set<string>, visited: set<string>, x: string)
    requires visited0 <= visited && x in names && x !in visited
    ensures |names - (visited + {x})| < |names - visited0|
  {
    var smaller := names - (visited + {x});
    var rest := (names - visited0) - {x};
    assert rest == smaller + (rest - smaller);
    assert |rest| == |smaller| + |rest - smaller|;
    assert |names - visited0| == |rest| + 1 by {
      assert names - visited0 == rest + {x};
    }
  }

  /**
   What a call of the builder guarantees about the map `tree` it hands back
   for the map `tree0` it was given, once it has processed the names
   `covered` of its argument list `roots`:
   - no key is lost and no existing entry changes;
   - every covered name that names a port is a key;
   - every new key names a port, holds that port's core dependency names
     (first match, in declared order, duplicates kept) and is reached from
     the roots by a walk that passes through no key of `tree0`, so a name
     that was already a key is never expanded again;
   - every dependency of a new key that names a port is itself a key.
   */
  ghost predicate Extends(index: Index, roots: seq<string>, covered: seq<string>, tree0: Tree, tree: Tree) {
    && tree0.Keys <= tree.Keys
    && (forall k :: k in tree0 ==> tree[k] == tree0[k])
    && (forall n :: n in covered && n in index ==> n in tree)
    && (forall k :: k in tree && k !in tree0 ==> k in index && tree[k] == index[k])
    && (forall k {:trigger ReachableAvoiding(index, roots, tree0.Keys, k)} ::
          k in tree && k !in tree0 ==> ReachableAvoiding(index, roots, tree0.Keys, k))
    && (forall k, d :: k in tree && k !in tree0 && d in tree[k] && d in index ==> d in tree)
  }

  /** A name that is already a key, or that names no port, changes nothing. */
  lemma SkipName(index: Index, names: seq<string>, i: nat, tree0: Tree, tree: Tree)
    requires i < |names|
    requires names[i] in tree || names[i] !in index
    requires Extends(index, names, names[..i], tree0, tree)
    ensures Extends(index, names, names[..i + 1], tree0, tree)
  {
    assert names[..i + 1] == names[..i] + [names[i]];
  }

  /** After entering `name` and extending from its dependencies, every new key is a reachable port entry. */
  lemma NewKeysReachable(index: Index, names: seq<string>, i: nat, tree0: Tree, before: Tree, middle: Tree, tree: Tree)
    requires i < |names|
    requires names[i] !in before && names[i] in index
    requires tree0.Keys <= before.Keys
    requires forall k :: k in before && k !in tree0 ==> k in index && before[k] == index[k]
    requires forall k {:trigger ReachableAvoiding(index, names, tree0.Keys, k)} ::
      k in before && k !in tree0 ==> ReachableAvoiding(index, names, tree0.Keys, k)
    requires middle == before[names[i] := index[names[i]]]
    requires Extends(index, index[names[i]], index[names[i]], middle, tree)
    ensures forall k :: k in tree && k !in tree0 ==> k in index && tree[k] == index[k]
    ensures forall k {:trigger ReachableAvoiding(index, names, tree0.Keys, k)} ::
      k in tree && k !in tree0 ==> ReachableAvoiding(index, names, tree0.Keys, k)
  {
    var name := names[i];
    RootReachableAvoiding(index, names, tree0.Keys, name);
    forall k | k in tree && k !in tree0
      ensures k in index && tree[k] == index[k] && ReachableAvoiding(index, names, tree0.Keys, k)
    {
      if k !in middle {
        ReachableThroughRoot(index, names, tree0.Keys, middle.Keys, name, k);
      } else if k != name {
        assert k in before;
      }
    }
  }

  /** After entering `name` and extending from its dependencies, every dependency of a new key is a key. */
  lemma NewKeysClosed(index: Index, names: seq<string>, i: nat, tree0: Tree, before: Tree, middle: Tree, tree: Tree)
    requires i < |names| && names[i] in index && names[i] !in before
    requires forall k, d :: k in before && k !in tree0 && d in before[k] && d in index ==> d in before
    requires middle == before[names[i] := index[names[i]]]
    requires Extends(index, index[names[i]], index[names[i]], middle, tree)
    ensures forall k, d :: k in tree && k !in tree0 && d in tree[k] && d in index ==> d in tree
  {
    forall k, d | k in tree && k !in tree0 && d in tree[k] && d in index
      ensures d in tree
    {
      if k in before {
        assert d in before;
      }
    }
  }

  /**
   Entering a new name with its port's dependencies and then extending the
   map from those dependencies covers one more name of the list.
   */
  lemma ExpandName(index: Index, names: seq<string>, i: nat, tree0: Tree, before: Tree, middle: Tree, tree: Tree)
    requires i < |names|
    requires names[i] !in before && names[i] in index
    requires Extends(index, names, names[..i], tree0, before)
    requires middle == before[names[i] := index[names[i]]]
    requires Extends(index, index[names[i]], index[names[i]], middle, tree)
    ensures Extends(index, names, names[..i + 1], tree0, tree)
  {
    var name := names[i];
    assert names[..i + 1] == names[..i] + [name];
    NewKeysReachable(index, names, i, tree0, before, middle, tree);
    NewKeysClosed(index, names, i, tree0, before, middle, tree);
    forall n | n in names[..i + 1] && n in index
      ensures n in tree
    {
      if n != name {
        assert n in before;
      }
    }
  }

  /**
   The inner loop of the builder: the name is entered with an empty list and
   each dependency name is appended in turn, so the entry ends up holding the
   whole list, in order and with duplicates, and no other entry changes.
   */
  method EnterPort(tree0: Tree, name: string, depends: seq<string>) returns (tree: Tree)
    ensures tree == tree0[name := depends]
  {
    tree := tree0[name := []];
    for j := 0 to |depends|
      invariant tree == tree0[name := depends[..j]]
    {
      assert depends[..j + 1] == depends[..j] + [depends[j]];
      tree := tree[name := tree[name] + [depends[j]]];
    }
    assert depends[..|depends|] == depends;
  }

  /**
   `build_dependency_tree(tree, names, catalog)`: the map is passed in and
   handed back, as the caller's map is updated in place.

   For each name that is not yet a key and that names a port (first match),
   the name is entered with the port's core dependency names, in order and
   with duplicates, and the walk recurses into that list before the next
   name. Names that match no port are skipped. Existing entries are never
   changed (see Extends).
   */
  method BuildDependencyTree(tree0: Tree, names: seq<string>, catalog: seq<Record>)
    returns (tree: Tree)
    ensures Extends(PortIndex(catalog), names, names, tree0, tree)
    decreases |PortIndex(catalog).Keys - tree0.Keys|
  {
    ghost var index := PortIndex(catalog);
    tree := tree0;
    for i := 0 to |names|
      invariant Extends(index, names, names[..i], tree0, tree)
    {
      var name := names[i];
      PortIndexAgrees(catalog, name);
      if name !in tree {
        var portFile := FindPort(catalog, name);
        if portFile.Some? {
          ghost var before := tree;
          tree := EnterPort(tree, name, catalog[portFile.value].depends);
          assert tree.Keys == before.Keys + {name};
          UnvisitedShrinks(index.Keys, tree0.Keys, before.Keys, name);
          ghost var middle := tree;
          tree := BuildDependencyTree(tree, tree[name], catalog);
          ExpandName(index, names, i, tree0, before, middle, tree);
        } else {
          SkipName(index, names, i, tree0, tree);
        }
      } else {
        SkipName(index, names, i, tree0, tree);
      }
    }
    assert names[..|names|] == names;
  }

  /**
   Every name on a walk from the roots that avoids the keys of the given map
   is a key of the builder's result.
   */
  lemma {:induction false} WalkInTree(index: Index, roots: seq<string>, tree0: Tree, tree: Tree, p: seq<string>, j: nat)
    requires Extends(index, roots, roots, tree0, tree)
    requires IsWalk(index, p) && p[0] in roots && Avoids(p, tree0.Keys) && j < |p|
    ensures p[j] in tree
  {
    if j > 0 {
      WalkInTree(index, roots, tree0, tree, p, j - 1);
      assert StepAt(index, p, j);
      assert p[j - 1] !in tree0;
    }
  }

  /**
   The builder's guarantee leaves no choice: for given arguments, one map at
   most satisfies it.
   */
  lemma ExtendsDetermined(index: Index, roots: seq<string>, tree0: Tree, t1: Tree, t2: Tree)
    requires Extends(index, roots, roots, tree0, t1)
    requires Extends(index, roots, roots, tree0, t2)
    ensures t1 == t2
  {
    forall k | k in t1
      ensures k in t2
    {
      if k !in tree0 {
        ReachedIsKey(index, roots, tree0, t2, k);
      }
    }
    forall k | k in t2
      ensures k in t1
    {
      if k !in tree0 {
        ReachedIsKey(index, roots, tree0, t1, k);
      }
    }
    assert t1.Keys == t2.Keys;
  }

  /** A name reached from the roots while avoiding the given keys is a key of the result. */
  lemma ReachedIsKey(index: Index, roots: seq<string>, tree0: Tree, tree: Tree, k: string)
    requires Extends(index, roots, roots, tree0, tree)
    requires ReachableAvoiding(index, roots, tree0.Keys, k)
    ensures k in tree
  {
    var p :| IsWalk(index, p) && p[0] in roots && p[|p| - 1] == k && Avoids(p, tree0.Keys);
    WalkInTree(index, roots, tree0, tree, p, |p| - 1);
  }

  /** A walk from names that are all to be avoided avoids nothing: it starts on one of them. */
  lemma NoAvoidingWalk(index: Index, names: seq<string>, avoid: set<string>, k: string)
    requires forall n :: n in names ==> n in avoid
    ensures !ReachableAvoiding(index, names, avoid, k)
  {
    forall p | IsWalk(index, p) && p[0] in names && p[|p| - 1] == k
      ensures !Avoids(p, avoid)
    {
      assert p[0] in avoid;
    }
  }

  /** When every name is already a key, the builder hands the map back unchanged. */
  lemma KnownNamesChangeNothing(index: Index, names: seq<string>, tree0: Tree, tree: Tree)
    requires forall n :: n in names ==> n in tree0
    requires Extends(index, names, names, tree0, tree)
    ensures tree == tree0
  {
    forall k | k in tree
      ensures k in tree0
    {
      NoAvoidingWalk(index, names, tree0.Keys, k);
    }
    assert tree.Keys == tree0.Keys;
  }

  /** From an empty map, the builder's guarantee pins the result down completely. */
  lemma ExtendsEmptyIsDependencyTree(index: Index, roots: seq<string>, tree: Tree)
    requires Extends(index, roots, roots, map[], tree)
    ensures IsDependencyTree(index, roots, tree)
  {
    var none: Tree := map[];
    forall k | Reachable(index, roots, k)
      ensures k in tree
    {
      var p :| IsWalk(index, p) && p[0] in roots && p[|p| - 1] == k;
      WalkInTree(index, roots, none, tree, p, |p| - 1);
    }
    forall k | k in tree
      ensures Reachable(index, roots, k)
    {
      assert ReachableAvoiding(index, roots, none.Keys, k);
      var p :| IsWalk(index, p) && p[0] in roots && p[|p| - 1] == k && Avoids(p, none.Keys);
    }
  }

  /**
   The call made by the command (a fresh map and the requested names): the
   result is exactly the dependency tree of the roots. Every key is a port
   name, every root that names a port is a key, and no roots give no keys.
   */
  method DependencyTreeOf(roots: seq<string>, catalog: seq<Record>) returns (tree: Tree)
    ensures IsDependencyTree(PortIndex(catalog), roots, tree)
    ensures tree == ClosureOf(PortIndex(catalog), roots)
    ensures forall k :: k in tree ==> tree[k] == CoreDeps(catalog, k)
    ensures tree.Keys <= CatalogNames(catalog)
    ensures forall n :: n in roots && Resolves(catalog, n) ==> n in tree
    ensures roots == [] ==> tree == map[]
  {
    tree := BuildDependencyTree(map[], roots, catalog);
    ExtendsEmptyIsDependencyTree(PortIndex(catalog), roots, tree);
    DependencyTreeUnique(PortIndex(catalog), roots, tree);
    forall n | n in roots && Resolves(catalog, n)
      ensures n in tree
    {
      PortIndexAgrees(catalog, n);
    }
    forall k | k in tree
      ensures tree[k] == CoreDeps(catalog, k)
    {
      PortIndexAgrees(catalog, k);
    }
  }

  /**
   The closure is a fixed point: taking the ports reached from the roots as
   the new roots reaches exactly the same ports.
   */
  lemma ReachableIdempotent(index: Index, roots: seq<string>, keys: seq<string>, k: string)
    requires forall x :: x in keys <==> Reachable(index, roots, x)
    ensures Reachable(index, keys, k) <==> Reachable(index, roots, k)
  {
    if Reachable(index, keys, k) {
      var q :| IsWalk(index, q) && q[0] in keys && q[|q| - 1] == k;
      var p :| IsWalk(index, p) && p[0] in roots && p[|p| - 1] == q[0];
      var w := p + q[1..];
      forall j | 0 < j < |w|
        ensures StepAt(index, w, j)
      {
        if j < |p| {
          assert StepAt(index, p, j);
        } else {
          assert StepAt(index, q, j - |p| + 1);
        }
      }
      forall j | 0 <= j < |w|
        ensures w[j] in index
      {
        if j >= |p| {
          assert w[j] == q[j - |p| + 1];
        }
      }
      assert IsWalk(index, w);
    }
    if Reachable(index, roots, k) {
      var p :| IsWalk(index, p) && p[0] in roots && p[|p| - 1] == k;
      assert IsWalk(index, [k]);
    }
  }

  /**
   Re-running the builder on the keys of its own result gives the same map:
   a dependency tree of the keys of a dependency tree is that tree.
   */
  lemma RebuildFromKeysIsSame(index: Index, roots: seq<string>, keys: seq<string>, t1: Tree, t2: Tree)
    requires IsDependencyTree(index, roots, t1)
    requires forall x :: x in keys <==> x in t1
    requires IsDependencyTree(index, keys, t2)
    ensures t1 == t2
  {
    forall k
      ensures k in t1 <==> k in t2
    {
      ReachableIdempotent(index, roots, keys, k);
    }
    SameEntries(index, t1, t2);
  }

  /** Two maps with the same keys whose entries all come from the index are equal. */
  lemma SameEntries(index: Index, t1: Tree, t2: Tree)
    requires forall k :: k in t1 <==> k in t2
    requires forall k :: k in t1 ==> k in index && t1[k] == index[k]
    requires forall k :: k in t2 ==> k in index && t2[k] == index[k]
    ensures t1 == t2
  {
    assert t1.Keys == t2.Keys;
  }

  /** The dependency tree of the roots, defined directly: the index cut down to the reachable ports. */
  ghost function ClosureOf(index: Index, roots: seq<string>): (tree: Tree)
    ensures IsDependencyTree(index, roots, tree)
  {
    map k | k in index.Keys && Reachable(index, roots, k) :: index[k]
  }

  /** There is only one dependency tree of given roots. */
  lemma DependencyTreeUnique(index: Index, roots: seq<string>, tree: Tree)
    requires IsDependencyTree(index, roots, tree)
    ensures tree == ClosureOf(index, roots)
  {
    SameEntries(index, tree, ClosureOf(index, roots));
  }

  /** The cyclic catalog A -> B -> A. */
  function CyclicCatalog(): seq<Record> {
    [Record("A", ["B"], []), Record("B", ["A"], [])]
  }

  /** The index of the cyclic catalog. */
  lemma CyclicIndex()
    ensures PortIndex(CyclicCatalog()) == map["A" := ["B"], "B" := ["A"]]
  {
    var catalog := CyclicCatalog();
    assert catalog[1..][1..] == [];
    assert PortIndex(catalog[1..]) == map["B" := ["A"]];
  }

  /** In the cyclic catalog, a dependency tree from A holds A and B, each with its one dependency. */
  lemma CyclicTreeEntries(tree: Tree)
    requires IsDependencyTree(PortIndex(CyclicCatalog()), ["A"], tree)
    ensures "A" in tree && "B" in tree
    ensures tree["A"] == ["B"] && tree["B"] == ["A"]
    ensures forall k :: k in tree ==> k == "A" || k == "B"
  {
    var index := PortIndex(CyclicCatalog());
    CyclicIndex();
    RootReachable(index, ["A"], "A");
    OneStepReachable(index, ["A"], "A", "B");
    forall k | k in tree
      ensures k == "A" || k == "B"
    {
      assert k in index;
    }
  }

  /** A map with exactly the keys A and B and these entries is the two-entry map. */
  lemma TwoEntryMap(tree: Tree)
    requires "A" in tree && "B" in tree
    requires tree["A"] == ["B"] && tree["B"] == ["A"]
    requires forall k :: k in tree ==> k == "A" || k == "B"
    ensures tree == map["A" := ["B"], "B" := ["A"]]
  {
    assert tree.Keys == {"A", "B"};
  }

  /**
   Cycle safety: on the cyclic catalog the walk from A ends, and both ports
   are keys, each once, with its own dependency list.
   */
  method CycleExample() returns (tree: Tree)
    ensures tree == map["A" := ["B"], "B" := ["A"]]
  {
    tree := DependencyTreeOf(["A"], CyclicCatalog());
    CyclicTreeEntries(tree);
    TwoEntryMap(tree);
  }

  /** A catalog where A depends on B, and B on nothing. */
  function ChainCatalog(): seq<Record> {
    [Record("A", ["B"], []), Record("B", [], [])]
  }

  /**
   A name that is already a key is not visited again: given the map
   {A: [B]} and the name A, the builder does not go on to B.
   */
  method KnownNameExample() returns (tree: Tree)
    ensures tree == map["A" := ["B"]]
  {
    var tree0: Tree := map["A" := ["B"]];
    tree := BuildDependencyTree(tree0, ["A"], ChainCatalog());
    KnownNamesChangeNothing(PortIndex(ChainCatalog()), ["A"], tree0, tree);
  }
}
