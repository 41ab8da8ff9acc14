/**
 The DOT renderer of the depend-info command (`create_dot_as_string`).

 The output is a header, one block of statements per port with at least one
 core dependency (the port's node, then one edge per dependency, names
 sanitised), and a single summary node counting the ports that have no core
 dependencies, which are not drawn otherwise. Feature dependencies are not
 drawn.

 The statements are modelled as data (`Statement`) and rendered by `Render`;
 `DotGraph` is the whole text and `CreateDotAsString` builds it by appending,
 as the command does.
 */
module Dot {
  import opened Ports
  import opened Names
  import opened Seqs

  /** The opening of the graph: `digraph G{ rankdir=LR; edge [minlen=3]; overlap=false;`. */
  const Header: string := "digraph G{" + " rankdir=LR;" + " edge [minlen=3];" + " overlap=false;"

  /** The text around the count in the singleton summary node. */
  const LabelOpen: string := "empty [label=\""
  const LabelClose: string := " singletons...\"]; }"

  /** The singleton summary node for `count` ports without core dependencies. */
  function Footer(count: nat): (s: string)
    ensures LabelOpen <= s && |s| == |LabelOpen| + |NatToString(count)| + |LabelClose|
    ensures s[|LabelOpen|..|s| - |LabelClose|] == NatToString(count)
    ensures ParseNat(s[|LabelOpen|..|s| - |LabelClose|]) == count
    ensures s[|s| - |LabelClose|..] == LabelClose
  {
    var digits := NatToString(count);
    assert (LabelOpen + digits + LabelClose)[..|LabelOpen|] == LabelOpen;
    assert (LabelOpen + digits + LabelClose)[|LabelOpen|..|LabelOpen| + |digits|] == digits;
    assert (LabelOpen + digits + LabelClose)[|LabelOpen| + |digits|..] == LabelClose;
    NatToStringRoundTrip(count);
    LabelOpen + digits + LabelClose
  }

  datatype Statement = NodeDecl(id: string) | EdgeDecl(from: string, to: string)

  function Render(st: Statement): string {
    match st
    case NodeDecl(id) => id + ";"
    case EdgeDecl(from, to) => from + " -> " + to + ";"
  }

  /** The statements rendered one after another, in order. */
  function RenderAll(sts: seq<Statement>): string {
    if sts == [] then "" else RenderAll(sts[..|sts| - 1]) + Render(sts[|sts| - 1])
  }

  /** One edge from `from` to each dependency, sanitised, in declared order. */
  function EdgeStatements(from: string, depends: seq<string>): seq<Statement> {
    if depends == [] then []
    else
      var last := EdgeDecl(from, ReplaceDashesWithUnderscore(depends[|depends| - 1]));
      EdgeStatements(from, depends[..|depends| - 1]) + [last]
  }

  /** The statements of one port: none for a singleton, else its node and its edges. */
  function RecordStatements(r: Record): seq<Statement> {
    if r.depends == [] then []
    else
      var name := ReplaceDashesWithUnderscore(r.name);
      [NodeDecl(name)] + EdgeStatements(name, r.depends)
  }

  /** The statements of the whole catalog, port by port in catalog order. */
  function DotStatements(catalog: seq<Record>): seq<Statement> {
    if catalog == [] then []
    else DotStatements(catalog[..|catalog| - 1]) + RecordStatements(catalog[|catalog| - 1])
  }

  /** The number of ports without core dependencies. */
  function Singletons(catalog: seq<Record>): nat {
    if catalog == [] then 0
    else Singletons(catalog[..|catalog| - 1]) + (if catalog[|catalog| - 1].depends == [] then 1 else 0)
  }

  /** The DOT text of the catalog; it ends with the summary node for the singleton count. */
  function DotGraph(catalog: seq<Record>): (s: string)
    ensures |s| >= |Footer(Singletons(catalog))|
    ensures s[|s| - |Footer(Singletons(catalog))|..] == Footer(Singletons(catalog))
  {
    var body := Header + RenderAll(DotStatements(catalog));
    var footer := Footer(Singletons(catalog));
    assert (body + footer)[|body|..] == footer;
    body + footer
  }

  lemma RenderAllSnoc(sts: seq<Statement>, st: Statement)
    ensures RenderAll(sts + [st]) == RenderAll(sts) + Render(st)
  {
    assert (sts + [st])[..|sts|] == sts;
  }

  lemma {:induction false} RenderAllAppend(a: seq<Statement>, b: seq<Statement>)
    ensures RenderAll(a + b) == RenderAll(a) + RenderAll(b)
  {
    if b == [] {
      assert a + b == a;
    } else {
      assert (a + b)[..|a + b| - 1] == a + b[..|b| - 1];
      assert (a + b)[|a + b| - 1] == b[|b| - 1];
      RenderAllAppend(a, b[..|b| - 1]);
      AppendAssoc(RenderAll(a), RenderAll(b[..|b| - 1]), Render(b[|b| - 1]));
    }
  }

  /** Appending a rendered statement to a rendered prefix renders the longer list. */
  lemma AppendStatement(sts: seq<Statement>, st: Statement)
    ensures Header + RenderAll(sts) + Render(st) == Header + RenderAll(sts + [st])
  {
    AppendAssoc(Header, RenderAll(sts), Render(st));
    RenderAllSnoc(sts, st);
  }

  /** The statements of one more dependency: one more edge at the end. */
  lemma EdgeStep(sts: seq<Statement>, from: string, depends: seq<string>, j: nat)
    requires j < |depends|
    ensures sts + EdgeStatements(from, depends[..j + 1])
         == sts + EdgeStatements(from, depends[..j]) + [EdgeDecl(from, ReplaceDashesWithUnderscore(depends[j]))]
  {
    assert depends[..j + 1][..j] == depends[..j];
    AppendAssoc(sts, EdgeStatements(from, depends[..j]), [EdgeDecl(from, ReplaceDashesWithUnderscore(depends[j]))]);
  }

  /** The statements and singleton count of one more port of the catalog. */
  lemma RecordStep(catalog: seq<Record>, i: nat)
    requires i < |catalog|
    ensures DotStatements(catalog[..i + 1]) == DotStatements(catalog[..i]) + RecordStatements(catalog[i])
    ensures Singletons(catalog[..i + 1])
         == Singletons(catalog[..i]) + if catalog[i].depends == [] then 1 else 0
  {
    assert catalog[..i + 1][..i] == catalog[..i];
  }

  /**
   `create_dot_as_string`: appends the header, then for each port either
   counts it as a singleton or appends its node and its edges, and finally
   the summary node.
   */
  method CreateDotAsString(catalog: seq<Record>) returns (s: string)
    ensures s == DotGraph(catalog)
  {
    var emptyNodeCount;
    s, emptyNodeCount := DrawPorts(catalog);
    s := s + Footer(emptyNodeCount);
  }

  /**
   The loop of `create_dot_as_string`: after the header, each port without
   core dependencies is counted and every other port appends its node and
   its edges.
   */
  method DrawPorts(catalog: seq<Record>) returns (s: string, emptyNodeCount: nat)
    ensures s == Header + RenderAll(DotStatements(catalog))
    ensures emptyNodeCount == Singletons(catalog)
  {
    emptyNodeCount := 0;
    s := Header;
    for i := 0 to |catalog|
      invariant emptyNodeCount == Singletons(catalog[..i])
      invariant s == Header + RenderAll(DotStatements(catalog[..i]))
    {
      var paragraph := catalog[i];
      RecordStep(catalog, i);
      if paragraph.depends == [] {
        emptyNodeCount := emptyNodeCount + 1;
        assert DotStatements(catalog[..i]) + [] == DotStatements(catalog[..i]);
        continue;
      }
      var name := ReplaceDashesWithUnderscore(paragraph.name);
      ghost var sts := DotStatements(catalog[..i]) + [NodeDecl(name)];
      AppendStatement(DotStatements(catalog[..i]), NodeDecl(name));
      s := s + (name + ";");
      assert sts + EdgeStatements(name, paragraph.depends[..0]) == sts;
      for j := 0 to |paragraph.depends|
        invariant s == Header + RenderAll(sts + EdgeStatements(name, paragraph.depends[..j]))
      {
        var dependencyName := ReplaceDashesWithUnderscore(paragraph.depends[j]);
        EdgeStep(sts, name, paragraph.depends, j);
        AppendStatement(sts + EdgeStatements(name, paragraph.depends[..j]), EdgeDecl(name, dependencyName));
        s := s + (name + " -> " + dependencyName + ";");
      }
      assert paragraph.depends[..|paragraph.depends|] == paragraph.depends;
      AppendAssoc(DotStatements(catalog[..i]), [NodeDecl(name)], EdgeStatements(name, paragraph.depends));
    }
    assert catalog[..|catalog|] == catalog;
  }

  /** The DOT text of a catalog as concatenations of the catalogs' statement lists. */
  lemma {:induction false} DotStatementsAppend(c1: seq<Record>, c2: seq<Record>)
    ensures DotStatements(c1 + c2) == DotStatements(c1) + DotStatements(c2)
    ensures Singletons(c1 + c2) == Singletons(c1) + Singletons(c2)
  {
    if c2 == [] {
      assert c1 + c2 == c1;
    } else {
      var n := |c2| - 1;
      assert (c1 + c2)[..|c1 + c2| - 1] == c1 + c2[..n];
      assert (c1 + c2)[|c1 + c2| - 1] == c2[n];
      DotStatementsAppend(c1, c2[..n]);
      AppendAssoc(DotStatements(c1), DotStatements(c2[..n]), RecordStatements(c2[n]));
    }
  }

  /**
   A port without core dependencies draws nothing: removing it leaves the
   statements as they are and lowers the summary count by one.
   */
  lemma SingletonDrawsNothing(c1: seq<Record>, r: Record, c2: seq<Record>)
    requires r.depends == []
    ensures DotStatements(c1 + [r] + c2) == DotStatements(c1 + c2)
    ensures Singletons(c1 + [r] + c2) == Singletons(c1 + c2) + 1
  {
    DotStatementsAppend(c1 + [r], c2);
    DotStatementsAppend(c1, [r]);
    DotStatementsAppend(c1, c2);
    assert [r][..0] == [];
    assert DotStatements(c1) + [] == DotStatements(c1);
  }

  /** The indices of the ports without core dependencies. */
  function SingletonIndices(catalog: seq<Record>): set<nat> {
    set i: nat | i < |catalog| && catalog[i].depends == []
  }

  /** The summary count is the number of ports without core dependencies. */
  lemma {:induction false} SingletonsCount(catalog: seq<Record>)
    ensures Singletons(catalog) == |SingletonIndices(catalog)|
  {
    if catalog != [] {
      var n := |catalog| - 1;
      var front := catalog[..n];
      SingletonsCount(front);
      if catalog[n].depends == [] {
        assert SingletonIndices(catalog) == SingletonIndices(front) + {n};
      } else {
        assert SingletonIndices(catalog) == SingletonIndices(front);
      }
    }
  }

  /** A port's edge list has one edge per dependency position, in declared order, duplicates kept. */
  lemma {:induction false} EdgeStatementsFollowDepends(from: string, depends: seq<string>)
    ensures |EdgeStatements(from, depends)| == |depends|
    ensures forall k :: 0 <= k < |depends| ==>
      EdgeStatements(from, depends)[k] == EdgeDecl(from, ReplaceDashesWithUnderscore(depends[k]))
  {
    if depends != [] {
      EdgeStatementsFollowDepends(from, depends[..|depends| - 1]);
    }
  }

  /** Which edges a port's edge list holds: those from `from` to a sanitised dependency. */
  lemma {:induction false} EdgeStatementsContent(from: string, depends: seq<string>, st: Statement)
    ensures st in EdgeStatements(from, depends) <==>
      exists k :: 0 <= k < |depends| && st == EdgeDecl(from, ReplaceDashesWithUnderscore(depends[k]))
  {
    if depends != [] {
      var n := |depends| - 1;
      EdgeStatementsContent(from, depends[..n], st);
      if st == EdgeDecl(from, ReplaceDashesWithUnderscore(depends[n])) {
        assert st in EdgeStatements(from, depends);
      }
      if exists k :: 0 <= k < |depends[..n]| && st == EdgeDecl(from, ReplaceDashesWithUnderscore(depends[..n][k])) {
        var k :| 0 <= k < |depends[..n]| && st == EdgeDecl(from, ReplaceDashesWithUnderscore(depends[..n][k]));
        assert depends[..n][k] == depends[k];
      }
      if exists k :: 0 <= k < |depends| && st == EdgeDecl(from, ReplaceDashesWithUnderscore(depends[k])) {
        var k :| 0 <= k < |depends| && st == EdgeDecl(from, ReplaceDashesWithUnderscore(depends[k]));
        if k < n {
          assert depends[..n][k] == depends[k];
        }
      }
    }
  }

  /** Whether `id` is the node `r` declares: its sanitised name, when it has a core dependency. */
  predicate NodeOf(r: Record, id: string) {
    r.depends != [] && id == ReplaceDashesWithUnderscore(r.name)
  }

  /** A record's statements hold its node exactly when it has a core dependency. */
  lemma RecordNodeContent(r: Record, id: string)
    ensures NodeDecl(id) in RecordStatements(r) <==> NodeOf(r, id)
  {
    if r.depends != [] {
      var name := ReplaceDashesWithUnderscore(r.name);
      EdgeStatementsContent(name, r.depends, NodeDecl(id));
    }
  }

  /** A record's statements hold one edge per core dependency and no others. */
  lemma RecordEdgeContent(r: Record, from: string, to: string)
    ensures EdgeDecl(from, to) in RecordStatements(r) <==> exists k :: EdgeOf(r, k, from, to)
  {
    if r.depends != [] {
      var name := ReplaceDashesWithUnderscore(r.name);
      EdgeStatementsContent(name, r.depends, EdgeDecl(from, to));
      if exists k :: EdgeOf(r, k, from, to) {
        var k :| EdgeOf(r, k, from, to);
        assert EdgeDecl(from, to) == EdgeDecl(name, ReplaceDashesWithUnderscore(r.depends[k]));
      }
      if EdgeDecl(from, to) in RecordStatements(r) {
        assert EdgeDecl(from, to) in EdgeStatements(name, r.depends);
        var k :| 0 <= k < |r.depends| && EdgeDecl(from, to) == EdgeDecl(name, ReplaceDashesWithUnderscore(r.depends[k]));
        assert EdgeOf(r, k, from, to);
      }
    }
  }

  /** A port that has a core dependency declares its node. */
  lemma {:induction false} NodeDeclaredFor(catalog: seq<Record>, i: nat)
    requires i < |catalog| && catalog[i].depends != []
    ensures NodeDecl(ReplaceDashesWithUnderscore(catalog[i].name)) in DotStatements(catalog)
  {
    var n := |catalog| - 1;
    var id := ReplaceDashesWithUnderscore(catalog[i].name);
    RecordStep(catalog, n);
    assert catalog[..n + 1] == catalog;
    if i < n {
      assert catalog[..n][i] == catalog[i];
      NodeDeclaredFor(catalog[..n], i);
      assert NodeDecl(id) in DotStatements(catalog[..n]);
    } else {
      assert i == n;
      var r := catalog[n];
      assert r.depends != [];
      assert id == ReplaceDashesWithUnderscore(r.name);
      var sts := RecordStatements(r);
      assert sts == [NodeDecl(id)] + EdgeStatements(id, r.depends);
      assert sts[0] == NodeDecl(id);
    }
  }

  /** Every declared node is that of a port with a core dependency. */
  lemma {:induction false} NodeDeclaredOnlyFor(catalog: seq<Record>, id: string)
    requires NodeDecl(id) in DotStatements(catalog)
    ensures exists i :: 0 <= i < |catalog| && NodeOf(catalog[i], id)
  {
    var n := |catalog| - 1;
    RecordStep(catalog, n);
    assert catalog[..n + 1] == catalog;
    if NodeDecl(id) in DotStatements(catalog[..n]) {
      NodeDeclaredOnlyFor(catalog[..n], id);
      var i :| 0 <= i < n && NodeOf(catalog[..n][i], id);
      assert catalog[..n][i] == catalog[i];
    } else {
      RecordNodeContent(catalog[n], id);
      assert NodeOf(catalog[n], id);
    }
  }

  /**
   A node is declared for exactly the ports that have at least one core
   dependency, under their sanitised names.
   */
  lemma NodeDeclared(catalog: seq<Record>, id: string)
    ensures NodeDecl(id) in DotStatements(catalog) <==>
      exists i :: 0 <= i < |catalog| && NodeOf(catalog[i], id)
  {
    if NodeDecl(id) in DotStatements(catalog) {
      NodeDeclaredOnlyFor(catalog, id);
    }
    if exists i :: 0 <= i < |catalog| && NodeOf(catalog[i], id) {
      var i :| 0 <= i < |catalog| && NodeOf(catalog[i], id);
      NodeDeclaredFor(catalog, i);
    }
  }

  /** Whether `from -> to` is the edge of the `k`-th core dependency of `r`. */
  predicate EdgeOf(r: Record, k: int, from: string, to: string) {
    && 0 <= k < |r.depends|
    && from == ReplaceDashesWithUnderscore(r.name)
    && to == ReplaceDashesWithUnderscore(r.depends[k])
  }

  /**
   An edge is drawn for exactly the pairs of a port and one of its core
   dependencies, both sanitised.
   */
  lemma {:induction false} EdgeDeclared(catalog: seq<Record>, from: string, to: string)
    ensures EdgeDecl(from, to) in DotStatements(catalog) <==>
      exists i, k :: 0 <= i < |catalog| && EdgeOf(catalog[i], k, from, to)
  {
    if catalog != [] {
      var n := |catalog| - 1;
      var front := catalog[..n];
      EdgeDeclared(front, from, to);
      RecordEdgeContent(catalog[n], from, to);
      var st := EdgeDecl(from, to);
      assert DotStatements(catalog) == DotStatements(front) + RecordStatements(catalog[n]);
      if st in DotStatements(catalog) {
        if st in DotStatements(front) {
          var i, k :| 0 <= i < |front| && EdgeOf(front[i], k, from, to);
          assert catalog[i] == front[i];
        } else {
          var k :| EdgeOf(catalog[n], k, from, to);
          assert 0 <= n < |catalog| && EdgeOf(catalog[n], k, from, to);
        }
      }
      if exists i, k :: 0 <= i < |catalog| && EdgeOf(catalog[i], k, from, to) {
        var i, k :| 0 <= i < |catalog| && EdgeOf(catalog[i], k, from, to);
        if i < n {
          assert catalog[i] == front[i];
          assert st in DotStatements(front);
        } else {
          assert st in RecordStatements(catalog[n]);
        }
      }
    }
  }

  /** Every identifier in the DOT statements is free of dashes. */
  lemma DotIdentifiersDashFree(catalog: seq<Record>, st: Statement)
    requires st in DotStatements(catalog)
    ensures st.NodeDecl? ==> '-' !in st.id
    ensures st.EdgeDecl? ==> '-' !in st.from && '-' !in st.to
  {
    if st.NodeDecl? {
      NodeDeclared(catalog, st.id);
      var i :| 0 <= i < |catalog| && NodeOf(catalog[i], st.id);
      ReplaceDashesPointwise(catalog[i].name);
    } else {
      EdgeDeclared(catalog, st.from, st.to);
      var i, k :| 0 <= i < |catalog| && EdgeOf(catalog[i], k, st.from, st.to);
      ReplaceDashesPointwise(catalog[i].name);
      ReplaceDashesPointwise(catalog[i].depends[k]);
    }
  }

  /** A two-port catalog: a dashed port depending on a port without dependencies. */
  function ExampleCatalog(): seq<Record> {
    [Record("lib-a", ["lib-b"], []), Record("lib-b", [], [])]
  }

  lemma ExampleNames()
    ensures ReplaceDashesWithUnderscore("lib-a") == "lib_a"
    ensures ReplaceDashesWithUnderscore("lib-b") == "lib_b"
  {
    ReplaceDashesPointwise("lib-a");
    ReplaceDashesPointwise("lib-b");
  }

  lemma ExampleStatements()
    ensures DotStatements(ExampleCatalog()) == [NodeDecl("lib_a"), EdgeDecl("lib_a", "lib_b")]
    ensures Singletons(ExampleCatalog()) == 1
  {
    var c := ExampleCatalog();
    ExampleNames();
    assert c[..1] == [c[0]];
    assert [c[0]][..0] == [];
    assert ["lib-b"][..0] == [];
    assert EdgeStatements("lib_a", ["lib-b"]) == [EdgeDecl("lib_a", "lib_b")];
  }

  lemma ExampleRendering()
    ensures RenderAll([NodeDecl("lib_a"), EdgeDecl("lib_a", "lib_b")]) == "lib_a;" + "lib_a -> lib_b;"
  {
    RenderAllSnoc([], NodeDecl("lib_a"));
    RenderAllSnoc([NodeDecl("lib_a")], EdgeDecl("lib_a", "lib_b"));
    assert [] + [NodeDecl("lib_a")] == [NodeDecl("lib_a")];
    assert [NodeDecl("lib_a")] + [EdgeDecl("lib_a", "lib_b")] == [NodeDecl("lib_a"), EdgeDecl("lib_a", "lib_b")];
    assert Render(NodeDecl("lib_a")) == "lib_a;";
    assert Render(EdgeDecl("lib_a", "lib_b")) == "lib_a -> lib_b;";
  }

  /** The summary node for a single singleton. */
  lemma FooterOfOne()
    ensures Footer(1) == "empty [label=\"" + "1" + " singletons...\"]; }"
  {
    assert NatToString(1) == "1";
  }

  /**
   The dashed port is drawn with its edge under sanitised names, and the port
   without dependencies only raises the summary count.
   */
  lemma DotExample()
    ensures DotGraph(ExampleCatalog()) == Header + ("lib_a;" + "lib_a -> lib_b;") + Footer(1)
  {
    ExampleStatements();
    ExampleRendering();
  }
}
