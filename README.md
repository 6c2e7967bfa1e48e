# iptable core, modelled in Dafny

`iptable` compiles a network scenario into one iptables-restore document per
router. A scenario has routers, subnets and links (a link is one router
interface on one subnet), plus an ordered list of communications. Each
communication names a source subnet, a target subnet, a protocol, port ranges
and a direction. For each scenario the program:

1. builds two adjacency maps (router to subnets, subnet to routers) and a
   router by subnet table of interface names, one link at a time;
2. gives every router an empty rule text;
3. for each communication:
   - runs a depth-first search from the source subnet over the bipartite
     router/subnet graph, writing visited flags and parent pointers into four
     arrays;
   - walks back from the target subnet along the parent arrays;
   - at every router on the way, appends a `tcp`/`udp` or `icmp` FORWARD rule
     (plus a return rule for bidirectional flows) to that router's text;
4. wraps each router's text in a fixed nat/filter document.

The model follows the program's own shape.

- `decimal.dfy` (`Decimal`) renders integers the way `strconv.Itoa` does and
  proves that nothing is lost (a parser inverts it).
- `scenario.dfy` (`Scenario`) holds the decoded input records.
- `topology.dfy` (`Topology`) covers `makeMatrix` and the topology loop as
  methods. They are proved against link-by-link folds (`RouterAdjacency`,
  `SubnetAdjacency`, `InterfaceTable`), which are in turn related to
  independent descriptions: the links of a router in order, "some link joins r
  and s", and "the last link joining r and s". The file also defines routes (a
  sequence of router hops) over the links and over the adjacency lists.
- `rule_text.dfy` (`RuleText`) covers `tcpUdpRule` and `icmpRule` as pure
  functions that concatenate strings exactly as the program does. They are
  related to a structured reading: a forward `RuleLine` and its return line,
  rendered field by field. The file also covers the document skeleton of
  `writeRule`.
- `path_search.dfy` covers `findPath` as imperative Dafny over four arrays. It
  has two modules:
  - `SearchState`: the ghost invariants of the search and one-step lemmas.
  - `PathSearch`: the search methods, plus lemmas that turn the final parent
    arrays into a route.
- `compiler.dfy` (`Compiler`) covers:
  - the walk-back loop, with its protocol switch, over the parent arrays;
  - the per-communication and per-scenario loops;
  - the fold (`AppendHops`, `AccumulateAll`) that specifies them, and its
    properties.

Notes on the model:

- `findPath` is one recursive Go function with a router branch and a subnet
  branch. Here it is `PathSearch.FindPath`, whose early return is the Go one.
  The two branches are `SearchRouter` and `SearchSubnet`. The body of each
  `if !visited` test, which writes the parent and recurses, is `EnterSubnet` or
  `EnterRouter`. The methods are mutually recursive and perform the same writes
  in the same order as the Go function.
- The search's contract is about the parent arrays. Every marked node other
  than the root has a marked parent that lists it as a neighbour and is strictly
  shallower (ghost depths). Nodes the search does not reach keep their parent
  entries. The search marks nothing when it enters the destination subnet.
  Every node it marks has been fully expanded. From this, `ReachesDest` proves
  that on a connected network the target is entered. `ChainToDest` proves that
  the walk back follows a simple route, ends at the source and so terminates.
- The return line of both builders swaps the addresses but not the prefix
  lengths: `-s` carries the target address with the source prefix, `-d` the
  source address with the target prefix. The model keeps this, as the code has
  it (`RuleText.ReturnLine`).
- The walk back visits the hops from the target end, so rules are appended
  target-first. On a simple route each router is passed once per
  communication, so each router's text is the same either way
  (`Compiler.AppendHopsSimple`). The model follows the code's order.
- Routes need not be unique. The model assumes only that the two subnets of a
  communication are joined, and it proves that the search still yields a
  simple route: no router and no subnet is passed twice
  (`Topology.Simple`). A simple route from a subnet to itself has no hops
  (`Topology.SimpleSelfRouteEmpty`).

## Model

| member | source | states |
|---|---|---|
| Decimal.Itoa | src/main.go:133-136 | the rendering of an integer starts with '-' exactly when it is negative, and holds only digits otherwise |
| Decimal.ItoaRoundTrip | src/main.go:133-136 | parsing the rendering of any integer gives the integer back |
| Decimal.ItoaInjective | src/main.go:133-136 | distinct port numbers and prefixes render as distinct texts |
| Decimal.ItoaOneToken | src/main.go:133-136 | a rendered number holds no space and no line break |
| Topology.MakeMatrix | src/main.go:60-66 | the result has i rows of j cells, and every cell is the empty name |
| Topology.InterfaceTable | src/main.go:211-215 | writing each link's interface name into its cell keeps an nRouters by nSubnets table |
| Topology.BuildTopology | src/main.go:204-215 | after the loop, both adjacency maps and the interface table equal the link-by-link folds, and every link names an existing router and subnet |
| Topology.SubnetsOfSnoc | src/main.go:211-212 | one more link adds its subnet to the end of its router's subnet list and nothing to other routers |
| Topology.RoutersOnSnoc | src/main.go:211-213 | one more link adds its router to the end of its subnet's router list and nothing to other subnets |
| Topology.RouterAdjacencyLists | src/main.go:211-212 | a router's adjacency list is the subnets of that router's links, in link order |
| Topology.SubnetAdjacencyLists | src/main.go:211-213 | a subnet's adjacency list is the routers of that subnet's links, in link order |
| Topology.InSubnetsOf | src/main.go:211-212 | a subnet is in a router's list exactly when some link joins them |
| Topology.InRoutersOn | src/main.go:211-213 | a router is in a subnet's list exactly when some link joins them |
| Topology.AdjacencyIffLinked | src/main.go:211-213 | both adjacency maps list exactly the linked router/subnet pairs |
| Topology.InterfaceCell | src/main.go:211-214 | a cell holds the interface name of the last link joining its router and subnet, and stays empty when no link joins them |
| Topology.LastLinkExists | src/main.go:211-214 | a joined router/subnet pair has a last joining link |
| Topology.AdjacencyWithin | src/main.go:211-213 | when all links are in range, every adjacency entry is an existing subnet or router |
| Topology.SimpleSelfRouteEmpty | src/main.go:231-234 | a simple route from a subnet back to itself has no hops, so a flow within one subnet passes no router |
| Topology.SmallTreeRouteUnique | src/main.go:234-248 | on the tree S0 - R1 - S1 - R0, the only simple route from S0 to S1 is the hop through R1, so R0 is on no route |
| Topology.AdjRouteIffLinkRoute | src/main.go:211-213 | a route along the adjacency lists is exactly a route over the links |
| RuleText.ReturnLine | src/main.go:142-146 | the return line swaps addresses, interfaces and port ranges, but leaves each prefix length in its place |
| RuleText.TcpUdpRule | src/main.go:133-149 | the tcpUdpRule text, concatenated as the code does; its contract is stated by `TcpUdpRuleLines` (forward line, then the return line of `ReturnLine` only when bidirectional) and `TcpUdpRuleLineCount` (one or two lines) |
| RuleText.IcmpRule | src/main.go:151-162 | the icmpRule text, concatenated as the code does; its contract is stated by `IcmpRuleLines` (portless forward line, then the return line of `ReturnLine` only when bidirectional) and `IcmpRuleLineCount` (one or two lines) |
| RuleText.TcpUdpRuleLines | src/main.go:133-149 | tcpUdpRule's text is the forward line with both port ranges and state NEW,ESTABLISHED, then, only when bidirectional, its return line with state ESTABLISHED |
| RuleText.IcmpRuleLines | src/main.go:151-162 | icmpRule's text is the forward line without ports, then, only when bidirectional, its return line, which keeps state NEW,ESTABLISHED |
| RuleText.CountNewlinesAppend | src/main.go:140-146 | line breaks of a concatenation add up |
| RuleText.CountNewlinesNone | src/main.go:134-138 | a text without '\n' has no line breaks |
| RuleText.OneBreakAtEnd | src/main.go:138 | a line-break-free text followed by '\n' has exactly one line break |
| RuleText.StateSuffixOneBreak | src/main.go:138 | each state suffix ends its rule with its only line break |
| RuleText.WithPortsOneLine | src/main.go:134-135 | adding the port options to a single-line rule keeps it on one line |
| RuleText.WithAddressesOneLine | src/main.go:136-137 | adding the address options to a single-line rule keeps it on one line |
| RuleText.RenderLineIsOneLine | src/main.go:134-138 | every rendered rule line holds exactly one line break, with single-line names |
| RuleText.PairLineCount | src/main.go:145-147 | a forward line, with its return line only when bidirectional, is one or two lines |
| RuleText.TcpUdpRuleLineCount | src/main.go:133-149 | tcpUdpRule emits exactly one line, or two when bidirectional |
| RuleText.IcmpRuleLineCount | src/main.go:151-162 | icmpRule emits exactly one line, or two when bidirectional |
| RuleText.Document | src/main.go:105-113 | the document is the nat/filter preamble, then the router's rules unchanged, then the closing blank line and COMMIT |
| RuleText.DocumentInjective | src/main.go:105-113 | distinct rule texts give distinct documents |
| SearchState.MarkRouter | src/main.go:86 | marking a router that already has a valid parent keeps the parent tree valid |
| SearchState.MarkSubnet | src/main.go:94 | marking a subnet that already has a valid parent keeps the parent tree valid |
| SearchState.AdoptSubnet | src/main.go:88-89 | pointing an unvisited neighbour subnet at the router being expanded gives that subnet a valid parent, one level deeper |
| SearchState.AdoptRouter | src/main.go:96-97 | pointing an unvisited neighbour router at the subnet being expanded gives that router a valid parent, one level deeper |
| SearchState.ClosedGrows | src/main.go:87-100 | a fully expanded node stays expanded as more nodes are marked |
| SearchState.NewClosedStep | src/main.go:87-100 | full expansion of the nodes marked by a call survives later calls |
| SearchState.SubnetsCoveredStep | src/main.go:87-92 | after loop step i of a router's expansion, neighbour subnets 0..i are visited or are the entered destination |
| SearchState.RoutersCoveredStep | src/main.go:95-100 | after loop step i of a subnet's expansion, neighbour routers 0..i are visited |
| SearchState.ParentFrameTrans | src/main.go:85-101 | parent entries left alone by two consecutive calls are left alone by both |
| SearchState.ParentFrameWrite | src/main.go:89-90 | a parent write before a call that marks that node changes nothing the frame protects |
| SearchState.CountFalseGrows | src/main.go:85-101 | marking never increases the number of unvisited nodes |
| SearchState.CountFalseMark | src/main.go:86 | marking an unvisited node lowers the number of unvisited nodes by one |
| SearchState.ProgressTrans | src/main.go:87-100 | the guarantees of two consecutive recursive calls compose into those of both |
| SearchState.CloseRouter | src/main.go:85-92 | once all neighbours of a router are covered, the router's call meets the search guarantee |
| SearchState.CloseSubnet | src/main.go:93-101 | once all neighbours of a subnet are covered, the subnet's call meets the search guarantee |
| PathSearch.FindPath | src/main.go:80-103 | entering the destination subnet changes nothing; any other call keeps a valid parent tree, marks the entered node, fully expands every node it marks, leaves the destination unvisited and keeps the parents of nodes it does not mark |
| PathSearch.SearchRouter | src/main.go:85-92 | expanding a router marks it, covers every neighbour subnet and keeps the search guarantee |
| PathSearch.SearchSubnet | src/main.go:93-101 | expanding a subnet marks it, covers every neighbour router and keeps the search guarantee |
| PathSearch.EnterSubnet | src/main.go:88-90 | setting an unvisited subnet's parent and searching from it leaves it visited, or entered as the destination |
| PathSearch.EnterRouter | src/main.go:96-98 | setting an unvisited router's parent and searching from it leaves it visited |
| PathSearch.ConsRoute | src/main.go:241-246 | one parent step in front of a walk-back chain is still a chain along the adjacency lists |
| PathSearch.ConsSimple | src/main.go:241-246 | a hop strictly deeper than every hop behind it, leaving onto a subnet the chain never enters from, keeps the chain free of repeated routers and subnets |
| PathSearch.ChainFromSubnet | src/main.go:234-249 | from any visited subnet, the parent arrays lead back to the search's source along a simple route through strictly shallower nodes |
| PathSearch.ChainToDest | src/main.go:231-249 | once the target is entered, the walk back from it reaches the source along a simple route of router hops |
| PathSearch.ReachedAlong | src/main.go:80-103 | a fully expanded search that marked some subnet on a route to the target has entered the target |
| PathSearch.ReachesDest | src/main.go:80-103 | when a route joins the source and the target, a fully expanded search from the source enters the target |
| Compiler.AddText | src/main.go:237-239 | appending to a map entry extends that entry, creates it when missing and leaves every other entry alone |
| Compiler.HopRule | src/main.go:236-240 | a protocol other than tcp, udp and icmp yields no text |
| Compiler.HopRuleLineCount | src/main.go:236-240 | a hop adds one line, two for the exact direction "bidirectional", and none for an unmatched protocol |
| Compiler.AppendHopsSnoc | src/main.go:234-249 | walking back over one more hop applies that hop's switch to the result so far |
| Compiler.AppendHopsExtends | src/main.go:237-239 | the walk back only appends: each router's old text is a prefix of its new text |
| Compiler.AppendHopsOffRoute | src/main.go:234-249 | routers not on the route keep their text |
| Compiler.AppendHopsUnmatched | src/main.go:236-240 | a communication with an unmatched protocol changes no router's text |
| Compiler.AppendHopsKeys | src/main.go:237-239 | the walk back adds no key to the rule map when every router passed already has one |
| Compiler.AppendHopsSimple | src/main.go:234-249 | on a simple route, each router on it gains exactly the rule text of its own hop |
| Compiler.RouterLineGain | src/main.go:237-239 | with single-line names, a router on the route gains one line, or two when bidirectional |
| Compiler.AccumulateStep | src/main.go:223-250 | processing one more communication applies its walk back to the map so far |
| Compiler.AccumulateOffRoutes | src/main.go:223-250 | a router on none of the routes keeps its text through all communications |
| Compiler.LinkRouteFits | src/main.go:237-239 | every hop of a route over in-range links indexes existing subnets and table cells |
| Compiler.HopInterfacesNamed | src/main.go:237-239 | the ingress and egress names used at a hop are those of the last links joining its router to its two subnets |
| Compiler.RoutesForSnoc | src/main.go:223-250 | one more routed communication extends the list of routed communications |
| Compiler.SearchFor | src/main.go:224-229 | a search from fresh arrays leaves parent arrays that walk back from the target along a simple route to the source, and no route at all for a flow within one subnet |
| Compiler.NoneMarked | src/main.go:225-226 | freshly made visited arrays mark no node |
| Compiler.RouteFromParents | src/main.go:229-234 | after a search from nothing marked on a connected network, the parent arrays hold a simple route to the target |
| Compiler.WalkBack | src/main.go:231-249 | the walk back over a valid parent chain terminates and leaves the rules walked over that chain's hops |
| Compiler.SwitchOnProtocol | src/main.go:236-240 | the switch appends tcpUdpRule for tcp and udp, icmpRule for icmp, each with the hop's interfaces, and nothing otherwise |
| Compiler.AppendHopTcpUdp | src/main.go:237-238 | at a tcp or udp hop, the walk back appends tcpUdpRule's text to the router's entry |
| Compiler.AppendHopIcmp | src/main.go:239 | at an icmp hop, the walk back appends icmpRule's text to the router's entry |
| Compiler.ProcessCommunication | src/main.go:224-249 | one communication appends its rules along a simple route over the links, and changes nothing when source and target coincide |
| Compiler.EmptyRules | src/main.go:217-220 | the initial rule map has exactly the keys 0 .. n-1, each with empty text |
| Compiler.EmptyRuleMap | src/main.go:217-220 | the initialisation loop builds that map |
| Compiler.ProcessAll | src/main.go:222-250 | processing the communications in order leaves the fold of their walk backs over their routes, with the same keys |
| Compiler.CompileScenario | src/main.go:204-250 | the final rule map has one entry per router, equals the in-order fold over one simple route per communication, and gives an empty text to routers on no route |

## Left out

- Command-line parsing (`go-flags`), directory walking, file reading, JSON
  decoding, extraction of the scenario number from the file name, logging and
  printing. These are I/O and foreign libraries. The decoded `Input` record is
  the model's input.
- The file-writing half of `writeRule` (directory creation, file creation and
  write) and the per-router loop that calls it. Only the document text
  (`RuleText.Document`) is modelled.
- Disconnected networks and out-of-range ids. The program defines no behaviour
  there: it indexes out of range, loops forever, or silently emits a rule
  through the default parent 0. Links must name existing
  routers and subnets (`LinksInRange`). A communication must stay inside one
  subnet or name two existing subnets joined by some route (`Routable`).
- Integer width: Go's `int` is 64 bits wide. Ids, ports and prefixes are
  unbounded integers here. No value in the core is computed by arithmetic that
  could wrap.
- The interface table is a value (`seq<seq<string>>`) rather than a slice of
  slices. Its rows are not shared, so nothing about aliasing is lost. The rule
  builders stay pure functions over it.
- PathSearch.FindPath: the contract does not say which route the depth-first
  order picks when several exist. It says only that the parent arrays describe
  a simple route along the adjacency lists.
- Compiler.CompileScenario: the rule map is stated as a fold over the ghost
  routes the search found. It is not a function of the input alone, for the
  same reason. On a tree network the simple route between two subnets is
  unique, so the fold is the program's map. The model proves that uniqueness
  only for one small tree (`Topology.SmallTreeRouteUnique`), not for trees in
  general.
