/**
 The plain-text output of the depend-info command and the choice between it
 and a graph (`perform_and_exit`).

 Plain text is one `name: a, b` line per port. With root names the lines
 list the dependency tree of the roots, visited in key order as a
 `std::map` does; without root names they list the whole catalog in
 catalog order. When a graph switch is given, the output is the single
 graph text instead, always rendered from the whole catalog. Each element
 of a result is one printed line.
 */
module Listing {
  import opened Ports
  import opened Text
  import opened DependencyTree
  import Graph

  /**
   The `"%s: %s"` line of a port and its dependencies joined with `", "`: it
   starts with the name and `": "`, and a port without dependencies gives the
   bare `"name: "`.
   */
  function Line(name: string, depends: seq<string>): (line: string)
    ensures name + ": " <= line
    ensures depends == [] ==> line == name + ": "
  {
    var line := name + ": " + Join(", ", depends);
    assert line[..|name| + 2] == name + ": ";
    line
  }

  /** Reads a line back: the text before the first colon, and the list after `": "`. */
  function ParseLine(line: string): (string, seq<string>) {
    var k := IndexOf(line, ':');
    var rest := line[if k + 2 <= |line| then k + 2 else |line|..];
    (line[..k], if rest == "" then [] else SplitList(rest))
  }

  /** Whether a list of dependency names can be read back from its joined form. */
  predicate PlainNames(depends: seq<string>) {
    forall i :: 0 <= i < |depends| ==> depends[i] != "" && ',' !in depends[i]
  }

  /**
   A line gives back its port name and its dependency list, duplicates and
   order included, when the name has no colon and the dependency names are
   non-empty and have no comma; a port without dependencies gives `"name: "`.
   */
  lemma LineRoundTrip(name: string, depends: seq<string>)
    requires ':' !in name
    requires PlainNames(depends)
    ensures ParseLine(Line(name, depends)) == (name, depends)
  {
    var joined := Join(", ", depends);
    var line := Line(name, depends);
    assert line == name + (": " + joined);
    IndexOfPrefix(name, ": " + joined, ':');
    assert line[..|name|] == name;
    assert line[|name| + 2..] == joined;
    if depends != [] {
      JoinNonEmpty(", ", depends);
      SplitJoin(depends);
    }
  }

  /** One line per port, in catalog order, with its core dependencies. */
  function CatalogListing(catalog: seq<Record>): (lines: seq<string>)
    ensures |lines| == |catalog|
    ensures forall i :: 0 <= i < |catalog| ==> lines[i] == Line(catalog[i].name, catalog[i].depends)
  {
    if catalog == [] then []
    else
      var last := catalog[|catalog| - 1];
      CatalogListing(catalog[..|catalog| - 1]) + [Line(last.name, last.depends)]
  }

  /** The lines of the given keys of a tree, in the given order. */
  function KeyLines(tree: Tree, keys: seq<string>): (lines: seq<string>)
    requires forall i :: 0 <= i < |keys| ==> keys[i] in tree
    ensures |lines| == |keys|
    ensures forall i :: 0 <= i < |keys| ==> lines[i] == Line(keys[i], tree[keys[i]])
  {
    if keys == [] then []
    else
      var last := keys[|keys| - 1];
      KeyLines(tree, keys[..|keys| - 1]) + [Line(last, tree[last])]
  }

  /** The lines of a dependency tree, one per key in increasing key order. */
  function TreeListing(tree: Tree): seq<string> {
    KeyLines(tree, SortedKeys(tree.Keys))
  }

  /** Each line of a tree's listing reads back as its key and that key's entry. */
  lemma TreeLinesReadBack(tree: Tree, i: nat)
    requires forall k :: k in tree ==> ':' !in k && PlainNames(tree[k])
    requires i < |TreeListing(tree)|
    ensures ParseLine(TreeListing(tree)[i]) == (SortedKeys(tree.Keys)[i], tree[SortedKeys(tree.Keys)[i]])
  {
    var ks := SortedKeys(tree.Keys);
    LineRoundTrip(ks[i], tree[ks[i]]);
  }

  /** The names read back from a listing, one per line. */
  function ListedNames(lines: seq<string>): (names: seq<string>)
    ensures |names| == |lines|
    ensures forall i :: 0 <= i < |lines| ==> names[i] == ParseLine(lines[i]).0
  {
    seq(|lines|, i requires 0 <= i < |lines| => ParseLine(lines[i]).0)
  }

  /** Read back, the names of a tree's listing are its keys in increasing order. */
  lemma TreeNamesReadBack(tree: Tree)
    requires forall k :: k in tree ==> ':' !in k && PlainNames(tree[k])
    ensures ListedNames(TreeListing(tree)) == SortedKeys(tree.Keys)
  {
    var ks := SortedKeys(tree.Keys);
    var lines := TreeListing(tree);
    forall i | 0 <= i < |lines|
      ensures ListedNames(lines)[i] == ks[i]
    {
      TreeLinesReadBack(tree, i);
    }
  }

  /**
   Read back, the listing of a tree names every key exactly once, in
   increasing order, each with its own entry, as long as the names are plain.
   */
  lemma TreeListingReadsBack(tree: Tree)
    requires forall k :: k in tree ==> ':' !in k && PlainNames(tree[k])
    ensures ListedNames(TreeListing(tree)) == SortedKeys(tree.Keys)
    ensures |TreeListing(tree)| == |tree|
    ensures StrictlySorted(ListedNames(TreeListing(tree)))
    ensures forall k :: k in tree <==> k in ListedNames(TreeListing(tree))
    ensures forall i :: 0 <= i < |TreeListing(tree)| ==>
      ParseLine(TreeListing(tree)[i]).1 == tree[ParseLine(TreeListing(tree)[i]).0]
  {
    var ks := SortedKeys(tree.Keys);
    var lines := TreeListing(tree);
    TreeNamesReadBack(tree);
    forall i | 0 <= i < |lines|
      ensures ParseLine(lines[i]).1 == tree[ParseLine(lines[i]).0]
    {
      TreeLinesReadBack(tree, i);
    }
  }

  /** The lines printed by the command for the given roots, switches and catalog. */
  ghost function DependInfoOutput(roots: seq<string>, switches: set<string>, catalog: seq<Record>): seq<string> {
    if switches != {} then [Graph.CreateGraphAsString(switches, catalog)]
    else if |roots| >= 1 then TreeListing(ClosureOf(PortIndex(catalog), roots))
    else CatalogListing(catalog)
  }

  /** The loop printing the entries of a dependency tree, visited in key order. */
  method PrintTree(tree: Tree) returns (lines: seq<string>)
    ensures lines == TreeListing(tree)
  {
    var keys := SortedKeys(tree.Keys);
    lines := [];
    for i := 0 to |keys|
      invariant lines == KeyLines(tree, keys[..i])
    {
      assert keys[..i + 1][..i] == keys[..i];
      lines := lines + [Line(keys[i], tree[keys[i]])];
    }
    assert keys[..|keys|] == keys;
  }

  /** The loop printing every port of the catalog, in catalog order. */
  method PrintCatalog(catalog: seq<Record>) returns (lines: seq<string>)
    ensures lines == CatalogListing(catalog)
  {
    lines := [];
    for i := 0 to |catalog|
      invariant lines == CatalogListing(catalog[..i])
    {
      assert catalog[..i + 1][..i] == catalog[..i];
      lines := lines + [Line(catalog[i].name, catalog[i].depends)];
    }
    assert catalog[..|catalog|] == catalog;
  }

  /**
   `perform_and_exit` after its arguments are parsed and the catalog is
   loaded: with root names it builds their dependency tree; with a switch it
   prints the graph text and stops; otherwise it prints the tree's entries in
   key order, or, without roots, every port of the catalog.
   */
  method PerformAndExit(roots: seq<string>, switches: set<string>, catalog: seq<Record>)
    returns (lines: seq<string>)
    ensures lines == DependInfoOutput(roots, switches, catalog)
  {
    if |roots| >= 1 {
      var tree := DependencyTreeOf(roots, catalog);
      if switches != {} {
        var graph := Graph.CreateGraphAsString(switches, catalog);
        lines := [graph];
        return;
      }
      lines := PrintTree(tree);
    } else {
      if switches != {} {
        var graph := Graph.CreateGraphAsString(switches, catalog);
        lines := [graph];
        return;
      }
      lines := PrintCatalog(catalog);
    }
  }

  /**
   A graph is always drawn from the whole catalog: with a switch given, the
   root names make no difference to the output.
   */
  lemma GraphIgnoresRoots(roots: seq<string>, switches: set<string>, catalog: seq<Record>)
    requires switches != {}
    ensures DependInfoOutput(roots, switches, catalog) == DependInfoOutput([], switches, catalog)
    ensures |DependInfoOutput(roots, switches, catalog)| == 1
  {
  }

  /**
   The switches the command line admits are `--dot` and `--dgml`; with any
   of them given, the single printed line is a non-empty graph.
   */
  lemma AdmittedSwitchesDrawAGraph(roots: seq<string>, switches: set<string>, catalog: seq<Record>)
    requires switches != {} && switches <= {Graph.OptionDot, Graph.OptionDgml}
    ensures DependInfoOutput(roots, switches, catalog) == [Graph.CreateGraphAsString(switches, catalog)]
    ensures Graph.CreateGraphAsString(switches, catalog) != ""
  {
    var x :| x in switches;
    assert x == Graph.OptionDot || x == Graph.OptionDgml;
  }

  /**
   Without a switch, the plain output for roots lists exactly the ports
   reachable from them, so asking again for all the listed ports gives the
   same listing.
   */
  lemma ListingStable(roots: seq<string>, keys: seq<string>, catalog: seq<Record>)
    requires |roots| >= 1
    requires forall x :: x in keys <==> x in ClosureOf(PortIndex(catalog), roots)
    requires |keys| >= 1
    ensures DependInfoOutput(keys, {}, catalog) == DependInfoOutput(roots, {}, catalog)
  {
    var index := PortIndex(catalog);
    RebuildFromKeysIsSame(index, roots, keys, ClosureOf(index, roots), ClosureOf(index, keys));
  }
}
