/**
 The graph dispatch of the depend-info command (`create_graph_as_string`):
 the switches of the command line choose the renderer.
 */
module Graph {
  import opened Ports
  import opened Seqs
  import Dot
  import Dgml

  const OptionDot: string := "--dot"
  const OptionDgml: string := "--dgml"

  /**
   `create_graph_as_string`: the DOT text when `--dot` is given (even when
   `--dgml` is given too), else the DGML text when `--dgml` is given, else
   the empty string.
   */
  function CreateGraphAsString(switches: set<string>, catalog: seq<Record>): (s: string)
    ensures OptionDot in switches ==> Dot.Header <= s
    ensures OptionDot !in switches && OptionDgml in switches ==> Dgml.Prolog <= s
    ensures s == [] <==> OptionDot !in switches && OptionDgml !in switches
  {
    DotStartsWithHeader(catalog);
    DgmlStartsWithProlog(catalog);
    if OptionDot in switches then Dot.DotGraph(catalog)
    else if OptionDgml in switches then Dgml.DgmlGraph(catalog)
    else ""
  }

  lemma DotStartsWithHeader(catalog: seq<Record>)
    ensures Dot.Header <= Dot.DotGraph(catalog)
  {
    PrefixOfAppend(Dot.Header, Dot.RenderAll(Dot.DotStatements(catalog)), Dot.Footer(Dot.Singletons(catalog)));
  }

  lemma DgmlStartsWithProlog(catalog: seq<Record>)
    ensures Dgml.Prolog <= Dgml.DgmlGraph(catalog)
  {
    var nodes := "<Nodes>" + Dgml.XmlAll(Dgml.DgmlNodes(catalog)) + "</Nodes>";
    var links := "<Links>" + Dgml.XmlAll(Dgml.DgmlLinks(catalog)) + "</Links>";
    PrefixOfAppend(Dgml.Prolog, Dgml.GraphOpen, nodes);
    PrefixExtends(Dgml.Prolog, Dgml.Prolog + Dgml.GraphOpen + nodes, links);
    PrefixExtends(Dgml.Prolog, Dgml.Prolog + Dgml.GraphOpen + nodes + links, Dgml.GraphClose);
  }

  /** The two formats are told apart by their first character. */
  lemma FormatsDiffer(catalog: seq<Record>)
    ensures Dot.DotGraph(catalog)[0] == 'd'
    ensures Dgml.DgmlGraph(catalog)[0] == '<'
  {
    DotStartsWithHeader(catalog);
    DgmlStartsWithProlog(catalog);
    assert Dot.Header[0] == 'd';
    assert Dgml.Prolog[0] == '<';
  }

  /**
   Only the two graph switches matter: any other switch leaves the result
   unchanged, and `--dgml` makes no difference once `--dot` is given.
   */
  lemma OnlyGraphSwitchesMatter(switches: set<string>, catalog: seq<Record>)
    ensures CreateGraphAsString(switches, catalog)
         == CreateGraphAsString(switches * {OptionDot, OptionDgml}, catalog)
    ensures OptionDot in switches ==>
      CreateGraphAsString(switches, catalog) == CreateGraphAsString(switches - {OptionDgml}, catalog)
  {
    assert OptionDot != OptionDgml;
  }

  /** The output begins with the DOT header exactly when `--dot` is given. */
  lemma DotChosenIffSwitch(switches: set<string>, catalog: seq<Record>)
    ensures Dot.Header <= CreateGraphAsString(switches, catalog) <==> OptionDot in switches
  {
    var s := CreateGraphAsString(switches, catalog);
    if OptionDot !in switches && OptionDgml in switches {
      FormatsDiffer(catalog);
      assert Dot.Header[0] == 'd';
    }
  }

  /** The output begins with the XML prolog exactly when `--dgml` is given without `--dot`. */
  lemma DgmlChosenIffSwitch(switches: set<string>, catalog: seq<Record>)
    ensures Dgml.Prolog <= CreateGraphAsString(switches, catalog)
        <==> OptionDot !in switches && OptionDgml in switches
  {
    var s := CreateGraphAsString(switches, catalog);
    if OptionDot in switches {
      FormatsDiffer(catalog);
      assert Dgml.Prolog[0] == '<';
    }
  }
}
