/**
 The DGML renderer of the depend-info command (`create_dgml_as_string`).

 The output is an XML prolog, the opening `DirectedGraph` element, a `Nodes`
 element with one node per port in catalog order, a `Links` element with the
 links of every port in catalog order (for each port first its core
 dependencies, then the dependencies of each of its features in order), and
 the closing tag. Names are written as they are: no sanitising and no XML
 escaping.

 The elements are modelled as data (`Element`) and rendered by `Xml`;
 `DgmlGraph` is the whole text and `CreateDgmlAsString` builds it with two
 accumulators, as the command does.
 */
module Dgml {
  import opened Ports
  import opened Seqs

  const Prolog: string := "<?xml version=\"1.0\" encoding=\"utf-8\"?>"
  const GraphOpen: string := "<DirectedGraph xmlns=\"http://schemas.microsoft.com/vs/2009/dgml\">"
  const GraphClose: string := "</DirectedGraph>"

  datatype Element = Node(id: string) | Link(source: string, target: string)

  function Xml(e: Element): string {
    match e
    case Node(id) => "<Node Id=\"" + id + "\" />"
    case Link(source, target) => "<Link Source=\"" + source + "\" Target=\"" + target + "\" />"
  }

  /** The elements rendered one after another, in order. */
  function XmlAll(es: seq<Element>): string {
    if es == [] then "" else XmlAll(es[..|es| - 1]) + Xml(es[|es| - 1])
  }

  /** One node per port, named as the port is, in catalog order. */
  function DgmlNodes(catalog: seq<Record>): seq<Element> {
    if catalog == [] then []
    else DgmlNodes(catalog[..|catalog| - 1]) + [Node(catalog[|catalog| - 1].name)]
  }

  /** One link from `source` to each dependency, in declared order. */
  function LinksTo(source: string, depends: seq<string>): seq<Element> {
    if depends == [] then []
    else LinksTo(source, depends[..|depends| - 1]) + [Link(source, depends[|depends| - 1])]
  }

  /** The links of the feature dependencies, feature by feature. */
  function FeatureLinks(source: string, features: seq<Feature>): seq<Element> {
    if features == [] then []
    else FeatureLinks(source, features[..|features| - 1]) + LinksTo(source, features[|features| - 1].depends)
  }

  /** The links of one port: its core dependencies first, then its features'. */
  function RecordLinks(r: Record): seq<Element> {
    LinksTo(r.name, r.depends) + FeatureLinks(r.name, r.features)
  }

  /** The links of the whole catalog, port by port in catalog order. */
  function DgmlLinks(catalog: seq<Record>): seq<Element> {
    if catalog == [] then []
    else DgmlLinks(catalog[..|catalog| - 1]) + RecordLinks(catalog[|catalog| - 1])
  }

  /** The DGML text of the catalog; it ends with the closing tag of the graph. */
  function DgmlGraph(catalog: seq<Record>): (s: string)
    ensures |s| >= |GraphClose|
    ensures s[|s| - |GraphClose|..] == GraphClose
  {
    var body := Prolog + GraphOpen
      + ("<Nodes>" + XmlAll(DgmlNodes(catalog)) + "</Nodes>")
      + ("<Links>" + XmlAll(DgmlLinks(catalog)) + "</Links>");
    assert (body + GraphClose)[|body|..] == GraphClose;
    body + GraphClose
  }

  lemma XmlAllSnoc(es: seq<Element>, e: Element)
    ensures XmlAll(es + [e]) == XmlAll(es) + Xml(e)
  {
    assert (es + [e])[..|es|] == es;
  }

  lemma {:induction false} XmlAllAppend(a: seq<Element>, b: seq<Element>)
    ensures XmlAll(a + b) == XmlAll(a) + XmlAll(b)
  {
    if b == [] {
      assert a + b == a;
    } else {
      var n := |b| - 1;
      assert (a + b)[..|a + b| - 1] == a + b[..n];
      assert (a + b)[|a + b| - 1] == b[n];
      XmlAllAppend(a, b[..n]);
      AppendAssoc(XmlAll(a), XmlAll(b[..n]), Xml(b[n]));
    }
  }

  /** Appending one rendered link extends the rendered links of a dependency list by one. */
  lemma LinkAppended(links: string, source: string, depends: seq<string>, j: nat)
    requires j < |depends|
    ensures links + XmlAll(LinksTo(source, depends[..j]))
              + ("<Link Source=\"" + source + "\" Target=\"" + depends[j] + "\" />")
         == links + XmlAll(LinksTo(source, depends[..j + 1]))
  {
    assert depends[..j + 1][..j] == depends[..j];
    XmlAllSnoc(LinksTo(source, depends[..j]), Link(source, depends[j]));
    AppendAssoc(links, XmlAll(LinksTo(source, depends[..j])), Xml(Link(source, depends[j])));
  }

  /** Appending the links of one more feature. */
  lemma FeatureAppended(links: string, source: string, features: seq<Feature>, f: nat)
    requires f < |features|
    ensures links + XmlAll(FeatureLinks(source, features[..f])) + XmlAll(LinksTo(source, features[f].depends))
         == links + XmlAll(FeatureLinks(source, features[..f + 1]))
  {
    assert features[..f + 1][..f] == features[..f];
    XmlAllAppend(FeatureLinks(source, features[..f]), LinksTo(source, features[f].depends));
    AppendAssoc(links, XmlAll(FeatureLinks(source, features[..f])), XmlAll(LinksTo(source, features[f].depends)));
  }

  /** Appending one rendered node extends the rendered node list by the port's node. */
  lemma NodeAppended(catalog: seq<Record>, i: nat)
    requires i < |catalog|
    ensures XmlAll(DgmlNodes(catalog[..i])) + ("<Node Id=\"" + catalog[i].name + "\" />")
         == XmlAll(DgmlNodes(catalog[..i + 1]))
  {
    assert catalog[..i + 1][..i] == catalog[..i];
    XmlAllSnoc(DgmlNodes(catalog[..i]), Node(catalog[i].name));
  }

  /** Appending the core links and then the feature links of one more port. */
  lemma PortLinksAppended(catalog: seq<Record>, i: nat)
    requires i < |catalog|
    ensures XmlAll(DgmlLinks(catalog[..i]))
              + XmlAll(LinksTo(catalog[i].name, catalog[i].depends))
              + XmlAll(FeatureLinks(catalog[i].name, catalog[i].features))
         == XmlAll(DgmlLinks(catalog[..i + 1]))
  {
    var r := catalog[i];
    assert catalog[..i + 1][..i] == catalog[..i];
    XmlAllAppend(LinksTo(r.name, r.depends), FeatureLinks(r.name, r.features));
    XmlAllAppend(DgmlLinks(catalog[..i]), RecordLinks(r));
    AppendAssoc(XmlAll(DgmlLinks(catalog[..i])), XmlAll(LinksTo(r.name, r.depends)),
                XmlAll(FeatureLinks(r.name, r.features)));
  }

  /** The loop over one dependency list: appends a link from `source` to each name. */
  method AppendLinks(links: string, source: string, depends: seq<string>) returns (result: string)
    ensures result == links + XmlAll(LinksTo(source, depends))
  {
    result := links;
    assert depends[..0] == [];
    for j := 0 to |depends|
      invariant result == links + XmlAll(LinksTo(source, depends[..j]))
    {
      LinkAppended(links, source, depends, j);
      result := result + ("<Link Source=\"" + source + "\" Target=\"" + depends[j] + "\" />");
    }
    assert depends[..|depends|] == depends;
  }

  /** The loop over the feature paragraphs of a port: appends each feature's links. */
  method AppendFeatureLinks(links: string, source: string, features: seq<Feature>) returns (result: string)
    ensures result == links + XmlAll(FeatureLinks(source, features))
  {
    result := links;
    assert features[..0] == [];
    for f := 0 to |features|
      invariant result == links + XmlAll(FeatureLinks(source, features[..f]))
    {
      FeatureAppended(links, source, features, f);
      result := AppendLinks(result, source, features[f].depends);
    }
    assert features[..|features|] == features;
  }

  /**
   `create_dgml_as_string`: writes the prolog and the opening tag, collects
   the nodes and the links of every port in two separate strings (for each
   port its core dependencies, then its feature dependencies), then writes
   the node list, the link list and the closing tag.
   */
  method CreateDgmlAsString(catalog: seq<Record>) returns (s: string)
    ensures s == DgmlGraph(catalog)
  {
    s := "";
    s := s + Prolog;
    s := s + GraphOpen;
    var nodes := "";
    var links := "";
    for i := 0 to |catalog|
      invariant s == Prolog + GraphOpen
      invariant nodes == XmlAll(DgmlNodes(catalog[..i]))
      invariant links == XmlAll(DgmlLinks(catalog[..i]))
    {
      var paragraph := catalog[i];
      var name := paragraph.name;
      NodeAppended(catalog, i);
      nodes := nodes + ("<Node Id=\"" + name + "\" />");
      PortLinksAppended(catalog, i);
      links := AppendLinks(links, name, paragraph.depends);
      links := AppendFeatureLinks(links, name, paragraph.features);
    }
    assert catalog[..|catalog|] == catalog;
    s := s + ("<Nodes>" + nodes + "</Nodes>");
    s := s + ("<Links>" + links + "</Links>");
    s := s + GraphClose;
  }

  /** There is one node per port, in catalog order, carrying the port's name unchanged. */
  lemma {:induction false} NodesFollowCatalog(catalog: seq<Record>)
    ensures |DgmlNodes(catalog)| == |catalog|
    ensures forall i :: 0 <= i < |catalog| ==> DgmlNodes(catalog)[i] == Node(catalog[i].name)
  {
    if catalog != [] {
      NodesFollowCatalog(catalog[..|catalog| - 1]);
    }
  }

  /** A dependency list gives one link per entry, in order, duplicates included. */
  lemma {:induction false} LinksFollowDepends(source: string, depends: seq<string>)
    ensures |LinksTo(source, depends)| == |depends|
    ensures forall k :: 0 <= k < |depends| ==> LinksTo(source, depends)[k] == Link(source, depends[k])
  {
    if depends != [] {
      LinksFollowDepends(source, depends[..|depends| - 1]);
    }
  }

  /** Whether some feature of the list depends on `target`. */
  predicate FeatureDepends(features: seq<Feature>, target: string) {
    exists f :: f in features && target in f.depends
  }

  /** Whether `r` gives a link to `target` through a core or a feature dependency. */
  predicate LinkOf(r: Record, source: string, target: string) {
    source == r.name && (target in r.depends || FeatureDepends(r.features, target))
  }

  lemma LinksToContent(source: string, depends: seq<string>, e: Element)
    ensures e in LinksTo(source, depends) <==> exists k :: 0 <= k < |depends| && e == Link(source, depends[k])
  {
    LinksFollowDepends(source, depends);
    if e in LinksTo(source, depends) {
      var k :| 0 <= k < |LinksTo(source, depends)| && LinksTo(source, depends)[k] == e;
      assert e == Link(source, depends[k]);
    }
    if exists k :: 0 <= k < |depends| && e == Link(source, depends[k]) {
      var k :| 0 <= k < |depends| && e == Link(source, depends[k]);
      assert LinksTo(source, depends)[k] == e;
    }
  }

  lemma {:induction false} FeatureLinksContent(source: string, features: seq<Feature>, e: Element)
    ensures e in FeatureLinks(source, features) <==>
      exists f, k :: f in features && 0 <= k < |f.depends| && e == Link(source, f.depends[k])
  {
    if features != [] {
      var n := |features| - 1;
      var front := features[..n];
      FeatureLinksContent(source, front, e);
      LinksToContent(source, features[n].depends, e);
      if exists f, k :: f in front && 0 <= k < |f.depends| && e == Link(source, f.depends[k]) {
        var f, k :| f in front && 0 <= k < |f.depends| && e == Link(source, f.depends[k]);
        assert f in features;
      }
      if exists f, k :: f in features && 0 <= k < |f.depends| && e == Link(source, f.depends[k]) {
        var f, k :| f in features && 0 <= k < |f.depends| && e == Link(source, f.depends[k]);
        var m :| 0 <= m < |features| && features[m] == f;
        if m < n {
          assert front[m] == f;
        }
      }
    }
  }

  /** The links of one port are exactly its core and feature dependency edges. */
  lemma RecordLinkContent(r: Record, source: string, target: string)
    ensures Link(source, target) in RecordLinks(r) <==> LinkOf(r, source, target)
  {
    var e := Link(source, target);
    LinksToContent(r.name, r.depends, e);
    FeatureLinksContent(r.name, r.features, e);
    if target in r.depends && source == r.name {
      var k :| 0 <= k < |r.depends| && r.depends[k] == target;
      assert e == Link(r.name, r.depends[k]);
    }
    if source == r.name && FeatureDepends(r.features, target) {
      var f :| f in r.features && target in f.depends;
      var k :| 0 <= k < |f.depends| && f.depends[k] == target;
      assert e == Link(r.name, f.depends[k]);
    }
  }

  /**
   A link is written for exactly the pairs of a port and a name it depends
   on, through its core paragraph or one of its features.
   */
  lemma {:induction false} LinkDeclared(catalog: seq<Record>, source: string, target: string)
    ensures Link(source, target) in DgmlLinks(catalog) <==>
      exists i :: 0 <= i < |catalog| && LinkOf(catalog[i], source, target)
  {
    if catalog != [] {
      var n := |catalog| - 1;
      var front := catalog[..n];
      LinkDeclared(front, source, target);
      RecordLinkContent(catalog[n], source, target);
      var e := Link(source, target);
      assert DgmlLinks(catalog) == DgmlLinks(front) + RecordLinks(catalog[n]);
      if e in DgmlLinks(catalog) {
        if e in DgmlLinks(front) {
          var i :| 0 <= i < |front| && LinkOf(front[i], source, target);
          assert catalog[i] == front[i];
        } else {
          assert LinkOf(catalog[n], source, target);
        }
      }
      if exists i :: 0 <= i < |catalog| && LinkOf(catalog[i], source, target) {
        var i :| 0 <= i < |catalog| && LinkOf(catalog[i], source, target);
        if i < n {
          assert catalog[i] == front[i];
          assert e in DgmlLinks(front);
        } else {
          assert e in RecordLinks(catalog[n]);
        }
      }
    }
  }

  /** A port with a feature: names keep their dashes, core links come before feature links. */
  function ExampleCatalog(): seq<Record> {
    [Record("x-1", ["y"], [Feature("f", ["z"])])]
  }

  lemma ExampleElements()
    ensures DgmlNodes(ExampleCatalog()) == [Node("x-1")]
    ensures DgmlLinks(ExampleCatalog()) == [Link("x-1", "y"), Link("x-1", "z")]
  {
    var r := ExampleCatalog()[0];
    assert ExampleCatalog()[..0] == [];
    assert r.depends[..0] == [];
    assert r.features[..0] == [];
    assert LinksTo("x-1", ["y"]) == [Link("x-1", "y")];
    assert LinksTo("x-1", ["z"]) == [Link("x-1", "z")];
    assert FeatureLinks("x-1", r.features) == [Link("x-1", "z")];
  }

  lemma ExampleNodeRendering()
    ensures XmlAll([Node("x-1")]) == "<Node Id=\"x-1\" />"
  {
    XmlAllSnoc([], Node("x-1"));
    assert [] + [Node("x-1")] == [Node("x-1")];
  }

  lemma ExampleLinkText(target: string)
    ensures Xml(Link("x-1", target)) == "<Link Source=\"x-1\" Target=\"" + target + "\" />"
  {
    AppendAssoc("<Link Source=\"" + "x-1", "\" Target=\"", target);
    assert "<Link Source=\"" + "x-1" + "\" Target=\"" == "<Link Source=\"x-1\" Target=\"";
  }

  lemma ExampleLinkRendering()
    ensures XmlAll([Link("x-1", "y"), Link("x-1", "z")])
         == "<Link Source=\"x-1\" Target=\"y\" />" + "<Link Source=\"x-1\" Target=\"z\" />"
  {
    ExampleLinkText("y");
    ExampleLinkText("z");
    assert "<Link Source=\"x-1\" Target=\"" + "y" + "\" />" == "<Link Source=\"x-1\" Target=\"y\" />";
    assert "<Link Source=\"x-1\" Target=\"" + "z" + "\" />" == "<Link Source=\"x-1\" Target=\"z\" />";
    XmlAllSnoc([], Link("x-1", "y"));
    XmlAllSnoc([Link("x-1", "y")], Link("x-1", "z"));
    assert [] + [Link("x-1", "y")] == [Link("x-1", "y")];
    assert [Link("x-1", "y")] + [Link("x-1", "z")] == [Link("x-1", "y"), Link("x-1", "z")];
  }

  lemma DgmlExample()
    ensures DgmlGraph(ExampleCatalog())
         == Prolog + GraphOpen
            + ("<Nodes>" + "<Node Id=\"x-1\" />" + "</Nodes>")
            + ("<Links>" + ("<Link Source=\"x-1\" Target=\"y\" />" + "<Link Source=\"x-1\" Target=\"z\" />") + "</Links>")
            + GraphClose
  {
    ExampleElements();
    ExampleNodeRendering();
    ExampleLinkRendering();
  }
}
