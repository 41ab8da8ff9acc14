/**
 The port catalog as the depend-info command sees it: an ordered sequence of
 already-parsed port files. Each port file has a core paragraph (its name and
 its core dependencies) and a list of feature paragraphs, each with its own
 dependencies. A dependency is represented by the string its `name()`
 accessor returns; that string need not be the name of a port of the catalog.
 */
module Ports {

  datatype Option<+T> = None | Some(value: T)

  /** One feature paragraph: the feature's name and the names it depends on. */
  datatype Feature = Feature(name: string, depends: seq<string>)

  /** One port file: the core paragraph's name and dependencies, and its features. */
  datatype Record = Record(name: string, depends: seq<string>, features: seq<Feature>)

  /** The names of all ports in the catalog. */
  function CatalogNames(catalog: seq<Record>): (names: set<string>)
    ensures forall i :: 0 <= i < |catalog| ==> catalog[i].name in names
  {
    set r | r in catalog :: r.name
  }

  /**
   The index of the first port whose name is `name`, scanning the catalog in
   order (first match wins), or None when no port has that name.
   */
  function FindPort(catalog: seq<Record>, name: string): (r: Option<nat>)
    ensures r.Some? ==> r.value < |catalog| && catalog[r.value].name == name
    ensures r.Some? ==> forall j :: 0 <= j < r.value ==> catalog[j].name != name
    ensures r.None? ==> forall j :: 0 <= j < |catalog| ==> catalog[j].name != name
  {
    if catalog == [] then None
    else if catalog[0].name == name then Some(0)
    else match FindPort(catalog[1..], name)
      case None => None
      case Some(i) => Some(i + 1)
  }

  /** Whether some port of the catalog carries the name. */
  predicate Resolves(catalog: seq<Record>, name: string) {
    FindPort(catalog, name).Some?
  }

  /** Record `i` carries `name` and no earlier record does. */
  predicate FirstWithName(catalog: seq<Record>, i: nat, name: string)
    requires i < |catalog|
  {
    catalog[i].name == name && forall j :: 0 <= j < i ==> catalog[j].name != name
  }

  /**
   The core dependency names of the first port called `name`, in declared
   order; empty when the name matches no port.
   */
  function CoreDeps(catalog: seq<Record>, name: string): (deps: seq<string>)
    ensures forall i :: 0 <= i < |catalog| && FirstWithName(catalog, i, name) ==> deps == catalog[i].depends
    ensures (forall i :: 0 <= i < |catalog| ==> catalog[i].name != name) ==> deps == []
  {
    match FindPort(catalog, name)
    case None => []
    case Some(i) => catalog[i].depends
  }

  /**
   The name-to-dependencies index of the catalog, built so that the first
   record with a given name wins, as the linear scan does.
   */
  function PortIndex(catalog: seq<Record>): (index: map<string, seq<string>>)
    ensures index.Keys == CatalogNames(catalog)
  {
    if catalog == [] then map[]
    else
      CatalogNamesCons(catalog);
      PortIndex(catalog[1..])[catalog[0].name := catalog[0].depends]
  }

  /** The names of a non-empty catalog: the first port's name and those of the rest. */
  lemma CatalogNamesCons(catalog: seq<Record>)
    requires catalog != []
    ensures CatalogNames(catalog) == CatalogNames(catalog[1..]) + {catalog[0].name}
  {
    assert catalog == [catalog[0]] + catalog[1..];
  }

  /**
   The index answers every lookup as the first-match scan does: a name is a
   key exactly when the scan finds a port, and it holds that port's core
   dependencies.
   */
  lemma {:induction false} PortIndexAgrees(catalog: seq<Record>, name: string)
    ensures name in PortIndex(catalog) <==> Resolves(catalog, name)
    ensures name in PortIndex(catalog) ==> PortIndex(catalog)[name] == CoreDeps(catalog, name)
  {
    if catalog != [] && catalog[0].name != name {
      PortIndexAgrees(catalog[1..], name);
    }
  }

  /** A name resolves exactly when it is the name of some port of the catalog. */
  lemma ResolvesIffInCatalog(catalog: seq<Record>, name: string)
    ensures Resolves(catalog, name) <==> name in CatalogNames(catalog)
  {
    if name in CatalogNames(catalog) {
      var i :| 0 <= i < |catalog| && catalog[i].name == name;
      assert FindPort(catalog, name).Some?;
    }
  }

  /**
   With duplicate names the first record wins: the dependencies reported for
   a name are those of the earliest record that carries it.
   */
  lemma {:induction false} FirstMatchWins(catalog: seq<Record>, i: nat)
    requires i < |catalog|
    requires forall j :: 0 <= j < i ==> catalog[j].name != catalog[i].name
    ensures FindPort(catalog, catalog[i].name) == Some(i)
    ensures CoreDeps(catalog, catalog[i].name) == catalog[i].depends
  {
    if i > 0 {
      assert catalog[0].name != catalog[i].name;
      FirstMatchWins(catalog[1..], i - 1);
    }
  }
}
