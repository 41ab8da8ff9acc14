# vcpkg `depend-info`, modelled in Dafny

This project models the core of vcpkg's `depend-info` command
(`toolsrc/src/vcpkg/commands.dependinfo.cpp`). The command reads the port
catalog and does one of three things:

- prints the dependency tree of the ports named on the command line, one
  `name: a, b` line per port;
- prints every port of the catalog with its core dependencies;
- with `--dot` or `--dgml`, prints a graph of the whole catalog in the DOT or
  the DGML format.

The model is made of these modules:

- `Ports`: the catalog, an ordered sequence of port records, each with a core
  name, core dependency names and feature paragraphs. It also holds the
  first-match lookup the command uses (`Util::find_if`) and a
  name-to-dependencies index that agrees with that lookup.
- `Names`: the identifier sanitiser `replace_dashes_with_underscore` and the
  decimal rendering of the singleton count.
- `Dot`: `create_dot_as_string`. The appending loops are in `DrawPorts`, which
  `CreateDotAsString` calls before appending the summary node. The result
  is proved equal to `DotGraph`, the text rendered from a list of DOT
  statements.
- `Dgml`: `create_dgml_as_string`. `CreateDgmlAsString` is the loop that fills
  the two accumulators. It is proved equal to `DgmlGraph`, rendered from node
  and link elements.
- `Graph`: `create_graph_as_string`, the choice between the two formats.
- `DependencyTree`: `build_dependency_tree`. It is a recursive method with the
  loops of the source. Its guarantee is that every key it adds is reached
  from the names without passing through a key it was given, and that this
  guarantee fixes the result. From an empty map, the result equals a
  declarative definition: every key is a port reachable from the roots by
  following core dependencies, and holds that port's dependency names.
- `Text`: `Strings::join` with `", "`, a splitter that reads a joined list
  back, and the key order of `std::map<std::string, …>`.
- `Seqs`: facts about appending sequences, used where text is built.
- `Listing`: the plain-text output of `perform_and_exit`, with its branches
  over roots and switches.

## Model

| member | source | states |
|---|---|---|
| Names.ReplaceDashesWithUnderscore | toolsrc/src/vcpkg/commands.dependinfo.cpp:28-33 | the sanitised copy has the length of the input |
| Names.ReplaceDashesPointwise | toolsrc/src/vcpkg/commands.dependinfo.cpp:28-33 | every `-` becomes `_`, every other character stays at its position, and the result contains no `-` |
| Names.ReplaceDashesIdempotent | toolsrc/src/vcpkg/commands.dependinfo.cpp:28-33 | sanitising twice gives the same text as sanitising once |
| Names.ReplaceDashesKeepsDashFree | toolsrc/src/vcpkg/commands.dependinfo.cpp:28-33 | a name without dashes is left unchanged |
| Names.ReplaceDashesAppend | toolsrc/src/vcpkg/commands.dependinfo.cpp:28-33 | sanitising a concatenation is the concatenation of the sanitised parts |
| Names.NatToString | toolsrc/src/vcpkg/commands.dependinfo.cpp:61 | the `%d` rendering of the count is non-empty, all decimal digits, without a leading zero |
| Names.NatToStringRoundTrip | toolsrc/src/vcpkg/commands.dependinfo.cpp:61 | the rendered count reads back as the count |
| Names.NatToStringInjective | toolsrc/src/vcpkg/commands.dependinfo.cpp:61 | different counts give different summary labels |
| Ports.FindPort | toolsrc/src/vcpkg/commands.dependinfo.cpp:127-131 | the found index holds a port of that name and no earlier port has the name; a miss means no port has it |
| Ports.CatalogNames | toolsrc/src/vcpkg/commands.dependinfo.cpp:127-129 | every port's name is among the catalog names |
| Ports.PortIndexAgrees | toolsrc/src/vcpkg/commands.dependinfo.cpp:127-135 | a name is an index key exactly when the scan finds a port, and the key holds the core dependencies of the port found |
| Ports.PortIndex | toolsrc/src/vcpkg/commands.dependinfo.cpp:127-135 | the name-to-dependencies index has exactly the catalog names as keys |
| Ports.CoreDeps | toolsrc/src/vcpkg/commands.dependinfo.cpp:127-139 | the dependencies used for a name are those of the earliest record with that name, and none when no record has it |
| Ports.ResolvesIffInCatalog | toolsrc/src/vcpkg/commands.dependinfo.cpp:127-131 | the scan finds a name exactly when some port carries it |
| Ports.FirstMatchWins | toolsrc/src/vcpkg/commands.dependinfo.cpp:127-139 | with duplicate names, the earliest record is found and its dependencies are the ones used |
| Dot.Footer | toolsrc/src/vcpkg/commands.dependinfo.cpp:61 | the summary node starts with `empty [label="`, then the decimal count, and ends with ` singletons..."]; }`; the count reads back from it |
| Dot.DotGraph | toolsrc/src/vcpkg/commands.dependinfo.cpp:40-62 | the DOT text (header, statements, summary node) ends with the summary node for the singleton count |
| Dot.CreateDotAsString | toolsrc/src/vcpkg/commands.dependinfo.cpp:35-63 | the appended text equals the header, the statements of every port with dependencies, and the summary node with the number of singletons |
| Dot.DrawPorts | toolsrc/src/vcpkg/commands.dependinfo.cpp:38-59 | the loop leaves the header followed by the statements of every port with dependencies, and counts exactly the singletons |
| Dot.DotStatementsAppend | toolsrc/src/vcpkg/commands.dependinfo.cpp:43-59 | the statements and singleton count of two catalogs in sequence are those of each, concatenated and added |
| Dot.SingletonDrawsNothing | toolsrc/src/vcpkg/commands.dependinfo.cpp:46-50 | a port without core dependencies adds no statement and adds one to the singleton count |
| Dot.SingletonsCount | toolsrc/src/vcpkg/commands.dependinfo.cpp:38-61 | the count in the summary node is the number of ports whose core dependency list is empty |
| Dot.EdgeStatementsFollowDepends | toolsrc/src/vcpkg/commands.dependinfo.cpp:54-58 | a port's edge list has exactly as many edges as it has dependencies, and edge `k` goes from its node to the sanitised `k`-th dependency: declared order, duplicates kept |
| Dot.EdgeStatementsContent | toolsrc/src/vcpkg/commands.dependinfo.cpp:54-58 | membership: an edge is in a port's edge list exactly when it goes from its node to some sanitised dependency |
| Dot.RecordNodeContent | toolsrc/src/vcpkg/commands.dependinfo.cpp:46-53 | a port declares a node exactly when it has dependencies, and the node is its sanitised name |
| Dot.RecordEdgeContent | toolsrc/src/vcpkg/commands.dependinfo.cpp:52-58 | a port draws an edge from `f` to `t` exactly when `f` is its sanitised name and `t` is a sanitised core dependency |
| Dot.NodeDeclaredFor | toolsrc/src/vcpkg/commands.dependinfo.cpp:43-53 | every port with dependencies has its sanitised name declared as a node |
| Dot.NodeDeclaredOnlyFor | toolsrc/src/vcpkg/commands.dependinfo.cpp:43-53 | every declared node comes from a port with dependencies |
| Dot.NodeDeclared | toolsrc/src/vcpkg/commands.dependinfo.cpp:43-53 | a node is declared if and only if some port with dependencies sanitises to it |
| Dot.EdgeDeclared | toolsrc/src/vcpkg/commands.dependinfo.cpp:43-58 | an edge is drawn if and only if some port with that sanitised name has a dependency sanitising to its target |
| Dot.DotIdentifiersDashFree | toolsrc/src/vcpkg/commands.dependinfo.cpp:52-57 | no node or edge identifier in the DOT text contains a dash |
| Dot.ExampleNames | toolsrc/src/vcpkg/commands.dependinfo.cpp:28-33 | `lib-a` and `lib-b` sanitise to `lib_a` and `lib_b` |
| Dot.ExampleStatements | toolsrc/src/vcpkg/commands.dependinfo.cpp:43-59 | for `lib-a -> lib-b` plus singleton `lib-b`, the statements are one node and one edge, and one singleton is counted |
| Dot.ExampleRendering | toolsrc/src/vcpkg/commands.dependinfo.cpp:53-57 | the example's statements render as `lib_a;lib_a -> lib_b;` |
| Dot.FooterOfOne | toolsrc/src/vcpkg/commands.dependinfo.cpp:61 | with one singleton the summary node reads `empty [label="1 singletons..."]; }` |
| Dot.DotExample | toolsrc/src/vcpkg/commands.dependinfo.cpp:35-63 | the whole DOT text of the example is the header, `lib_a;lib_a -> lib_b;` and the summary node for one singleton |
| Dgml.AppendLinks | toolsrc/src/vcpkg/commands.dependinfo.cpp:80-83 | the loop appends one link per core dependency, in declared order |
| Dgml.AppendFeatureLinks | toolsrc/src/vcpkg/commands.dependinfo.cpp:86-93 | the nested loop appends one link per feature dependency, feature by feature |
| Dgml.DgmlGraph | toolsrc/src/vcpkg/commands.dependinfo.cpp:68-101 | the DGML text (prolog, graph element, nodes, links) ends with the closing tag of the graph |
| Dgml.CreateDgmlAsString | toolsrc/src/vcpkg/commands.dependinfo.cpp:65-102 | the text equals the prolog, the graph element, the nodes of all ports in catalog order and the links of all ports, then the closing tag |
| Dgml.NodesFollowCatalog | toolsrc/src/vcpkg/commands.dependinfo.cpp:73-77 | there is one node per port, in catalog order, named as the port with no sanitising |
| Dgml.LinksFollowDepends | toolsrc/src/vcpkg/commands.dependinfo.cpp:80-83 | there is one link per core dependency, in declared order, duplicates kept |
| Dgml.LinksToContent | toolsrc/src/vcpkg/commands.dependinfo.cpp:80-83 | a port's core links are exactly the links from it to each of its core dependencies |
| Dgml.FeatureLinksContent | toolsrc/src/vcpkg/commands.dependinfo.cpp:86-93 | a port's feature links are exactly the links from it to a dependency of one of its features |
| Dgml.RecordLinkContent | toolsrc/src/vcpkg/commands.dependinfo.cpp:76-93 | a port has a link to `t` exactly when `t` is a core or feature dependency of that port |
| Dgml.LinkDeclared | toolsrc/src/vcpkg/commands.dependinfo.cpp:73-94 | a link is in the DGML links if and only if some port of that name has the target as a core or feature dependency |
| Dgml.ExampleElements | toolsrc/src/vcpkg/commands.dependinfo.cpp:73-94 | for port `x-1` with core dependency `y` and feature dependency `z`, the elements are one node and the core link before the feature link |
| Dgml.ExampleNodeRendering | toolsrc/src/vcpkg/commands.dependinfo.cpp:77 | the example node renders as `<Node Id="x-1" />` |
| Dgml.ExampleLinkText | toolsrc/src/vcpkg/commands.dependinfo.cpp:82-91 | a link from `x-1` renders in the `<Link Source=… Target=… />` form |
| Dgml.ExampleLinkRendering | toolsrc/src/vcpkg/commands.dependinfo.cpp:82-91 | the example's links render as the `y` link followed by the `z` link |
| Dgml.DgmlExample | toolsrc/src/vcpkg/commands.dependinfo.cpp:65-102 | the whole DGML text of the example, element by element |
| Graph.CreateGraphAsString | toolsrc/src/vcpkg/commands.dependinfo.cpp:104-117 | with `--dot` the text is DOT; with `--dgml` but not `--dot` it is DGML; the text is empty if and only if neither switch is given |
| Graph.DotStartsWithHeader | toolsrc/src/vcpkg/commands.dependinfo.cpp:40-41 | every DOT text begins with the `digraph G{ …` header |
| Graph.DgmlStartsWithProlog | toolsrc/src/vcpkg/commands.dependinfo.cpp:68-69 | every DGML text begins with the XML prolog |
| Graph.FormatsDiffer | toolsrc/src/vcpkg/commands.dependinfo.cpp:40-70 | the two formats begin with different characters |
| Graph.OnlyGraphSwitchesMatter | toolsrc/src/vcpkg/commands.dependinfo.cpp:108-116 | switches other than the two make no difference, and `--dgml` makes no difference once `--dot` is given |
| Graph.DotChosenIffSwitch | toolsrc/src/vcpkg/commands.dependinfo.cpp:108-111 | the output is DOT if and only if `--dot` is given |
| Graph.DgmlChosenIffSwitch | toolsrc/src/vcpkg/commands.dependinfo.cpp:112-115 | the output is DGML if and only if `--dgml` is given without `--dot` |
| DependencyTree.EnterPort | toolsrc/src/vcpkg/commands.dependinfo.cpp:133-140 | after the loop, the entry holds the port's whole dependency list in order, and the other entries are unchanged |
| DependencyTree.BuildDependencyTree | toolsrc/src/vcpkg/commands.dependinfo.cpp:119-146 | the call ends, even on cyclic catalogs; no existing entry changes; every name that names a port becomes a key; every new key holds its first-match port's dependencies, is reached from the names by a walk through no key of the given map (a key is never expanded again), and has every dependency that names a port as a key |
| DependencyTree.ExtendsDetermined | toolsrc/src/vcpkg/commands.dependinfo.cpp:119-146 | the builder's guarantee fixes the result: for the same map, names and catalog, one map at most satisfies it |
| DependencyTree.ReachedIsKey | toolsrc/src/vcpkg/commands.dependinfo.cpp:119-146 | every port reached from the names without passing through a given key becomes a key |
| DependencyTree.NoAvoidingWalk | toolsrc/src/vcpkg/commands.dependinfo.cpp:125 | no walk from names that are all keys avoids the keys |
| DependencyTree.KnownNamesChangeNothing | toolsrc/src/vcpkg/commands.dependinfo.cpp:123-125 | when every name is already a key, the map comes back unchanged |
| DependencyTree.KnownNameExample | toolsrc/src/vcpkg/commands.dependinfo.cpp:119-146 | given {A: [B]} and the name A over the catalog A -> B, the builder returns {A: [B]} without visiting B |
| DependencyTree.DependencyTreeOf | toolsrc/src/vcpkg/commands.dependinfo.cpp:156-157 | from an empty map the result is exactly the closure of the roots; keys are catalog names, entries are first-match core dependencies, resolvable roots are keys, and no roots give an empty map |
| DependencyTree.ClosureOf | toolsrc/src/vcpkg/commands.dependinfo.cpp:119-146 | the direct definition of the closure satisfies the dependency-tree characterisation |
| DependencyTree.DependencyTreeUnique | toolsrc/src/vcpkg/commands.dependinfo.cpp:119-146 | at most one map satisfies the characterisation |
| DependencyTree.ExtendsEmptyIsDependencyTree | toolsrc/src/vcpkg/commands.dependinfo.cpp:119-146 | the recursive call's guarantee, from an empty map, is the full characterisation: keys are exactly the reachable ports |
| DependencyTree.WalkInTree | toolsrc/src/vcpkg/commands.dependinfo.cpp:137-142 | every port on a dependency walk from a root that passes through no key of the given map is a key of the builder's result |
| DependencyTree.ReachableIdempotent | toolsrc/src/vcpkg/commands.dependinfo.cpp:119-146 | the closure is a fixed point: the closure of the reachable ports is the same set |
| DependencyTree.RebuildFromKeysIsSame | toolsrc/src/vcpkg/commands.dependinfo.cpp:119-146 | building again from the keys of a tree gives the same tree |
| DependencyTree.CyclicIndex | toolsrc/src/vcpkg/commands.dependinfo.cpp:127-135 | the first-match index of the catalog A -> B -> A is {A: [B], B: [A]} |
| DependencyTree.CyclicTreeEntries | toolsrc/src/vcpkg/commands.dependinfo.cpp:125-142 | on the cycle A -> B -> A, a tree from A holds exactly A and B with their one dependency each |
| DependencyTree.CycleExample | toolsrc/src/vcpkg/commands.dependinfo.cpp:119-146 | the walk from A over the cycle ends with the map {A: [B], B: [A]} |
| Text.Join | toolsrc/src/vcpkg/commands.dependinfo.cpp:168-169 | `Strings::join(", ", …)`: empty for no parts; otherwise it starts with the first part and its length is the parts' lengths plus one separator fewer than there are parts |
| Text.IndexOf | toolsrc/src/vcpkg/commands.dependinfo.cpp:169 | the result is the position of the first occurrence, or the length when there is none |
| Text.SplitJoin | toolsrc/src/vcpkg/commands.dependinfo.cpp:168-169 | splitting the `", "`-joined list gives back the parts, for one part or more, when no part has a comma |
| Text.LexIrreflexive | toolsrc/src/vcpkg/commands.dependinfo.cpp:166 | no key comes before itself in the map order |
| Text.LexAsymmetric | toolsrc/src/vcpkg/commands.dependinfo.cpp:166 | two keys are never each before the other |
| Text.LexTransitive | toolsrc/src/vcpkg/commands.dependinfo.cpp:166 | the map order is transitive |
| Text.LexTotal | toolsrc/src/vcpkg/commands.dependinfo.cpp:166 | of two distinct keys one comes first |
| Text.LeastExists | toolsrc/src/vcpkg/commands.dependinfo.cpp:166 | a non-empty key set has a first key |
| Text.LeastUnique | toolsrc/src/vcpkg/commands.dependinfo.cpp:166 | the first key is unique |
| Text.SortedKeys | toolsrc/src/vcpkg/commands.dependinfo.cpp:166 | the visiting order lists every key exactly once, in strictly increasing order |
| Text.SortedListingUnique | toolsrc/src/vcpkg/commands.dependinfo.cpp:166 | a strictly increasing listing of the same keys is that same order |
| Listing.Line | toolsrc/src/vcpkg/commands.dependinfo.cpp:168-169 | a line starts with the port name and `": "`, and a port without dependencies gives the bare `"name: "` |
| Listing.LineRoundTrip | toolsrc/src/vcpkg/commands.dependinfo.cpp:168-186 | a `name: a, b` line reads back as the name and the list, duplicates and order included |
| Listing.CatalogListing | toolsrc/src/vcpkg/commands.dependinfo.cpp:181-187 | one line per port, in catalog order, with its core dependencies |
| Listing.KeyLines | toolsrc/src/vcpkg/commands.dependinfo.cpp:166-170 | one line per visited key, with that key's entry |
| Listing.TreeLinesReadBack | toolsrc/src/vcpkg/commands.dependinfo.cpp:166-170 | line `i` of a tree's listing reads back as the `i`-th key and its entry |
| Listing.TreeNamesReadBack | toolsrc/src/vcpkg/commands.dependinfo.cpp:166-170 | the names read back from a tree's listing are its keys in map order |
| Listing.TreeListingReadsBack | toolsrc/src/vcpkg/commands.dependinfo.cpp:166-170 | a tree's listing names every key exactly once, in increasing order, each line with the key's own entry |
| Listing.PrintTree | toolsrc/src/vcpkg/commands.dependinfo.cpp:166-170 | the printing loop over the map yields the tree's listing |
| Listing.PrintCatalog | toolsrc/src/vcpkg/commands.dependinfo.cpp:181-187 | the printing loop over the catalog yields the catalog listing |
| Listing.PerformAndExit | toolsrc/src/vcpkg/commands.dependinfo.cpp:154-190 | the printed lines are: the graph alone when a switch is given; else the closure of the roots in key order; else the whole catalog |
| Listing.GraphIgnoresRoots | toolsrc/src/vcpkg/commands.dependinfo.cpp:159-179 | with a switch, the output is one line and does not depend on the roots, because the graph is drawn from the whole catalog |
| Listing.AdmittedSwitchesDrawAGraph | toolsrc/src/vcpkg/commands.dependinfo.cpp:159-179 | with any of the admitted switches `--dot` and `--dgml`, the output is the single graph line, and it is not empty |
| Listing.ListingStable | toolsrc/src/vcpkg/commands.dependinfo.cpp:154-170 | asking again for all the listed ports gives the same listing |

## Left out

- Argument parsing (`parse_arguments`, `COMMAND_STRUCTURE`, `DEPEND_SWITCHES`) is not modelled. The model takes the root names and the set of switches as parameters.
- Loading the catalog (`Paragraphs::load_all_ports`) is not modelled. The catalog is a parameter, already parsed.
- Printing and exiting (`System::println`, `Checks::exit_success`) are not modelled. The output is returned as the sequence of printed lines; `exit_success` after the graph is modelled as an early return.
- The internals of `Strings::format` and `Strings::join` are not modelled. They are written as string concatenation, and `%d` as a decimal rendering of a natural number.
- A `Dependency` is reduced to the string its `name()` accessor returns (lines 56, 82, 91, 139 and 185). `name()` is defined outside this file, which is not part of this model; the model makes no assumption that the string is the name of a port, and names that match no port are handled as the code handles them.
- Dot.CreateDotAsString: `empty_node_count` is a C++ `int`. The model counts with an unbounded natural and does not model overflow beyond `INT_MAX` singletons.
- DependencyTree.BuildDependencyTree: the map is passed in and handed back rather than updated in place. The aliasing of `dependency_tree[dependency_name]`, a reference into the same map passed as the next name list, is modelled as a copy of that entry. This is harmless because the entry is never changed after its loop.
- DependencyTree.BuildDependencyTree: the linear `find_if` scan is `Ports.FindPort`. The proof is stated over the first-match index `Ports.PortIndex`, which `Ports.PortIndexAgrees` proves equivalent.
- Text.SortedKeys: `std::less<std::string>` compares through `char_traits<char>`, byte by byte as `unsigned char`, with a proper prefix first, and ignores the locale. The model compares characters by code point. For UTF-8 text the two orders agree, because UTF-8 byte order is code-point order; the model does not model the encoding itself.
- The tree listing of the root branch is in `std::map` key order (line 166), not in the order the ports were discovered.
- Both graph branches draw the whole catalog, not just the tree built from the roots (lines 161 and 176). The model follows the code; see Listing.GraphIgnoresRoots.
- XML escaping of names in DGML and quoting of identifiers in DOT are not done by the source, and the model does not add them.
- Listing.PerformAndExit: the switches are any set of strings. `parse_arguments` admits only `--dot` and `--dgml`, so an output such as `[""]` for an unknown switch is covered by the model but cannot occur; Listing.AdmittedSwitchesDrawAGraph states what holds for the admitted switches.
