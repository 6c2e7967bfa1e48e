/**
 * The text of the iptables rules: the per-hop builders for tcp/udp and icmp
 * flows and the fixed iptables-restore document wrapped around a router's
 * accumulated rules.
 *
 * A rule line is described structurally by RuleLine, and RenderLine gives its
 * text. The builders concatenate strings exactly as the program does; their
 * contracts say which structured lines that text consists of.
 */
module RuleText {
  import opened Decimal
  import opened Scenario

  datatype PortRange = PortRange(first: int, last: int)

  datatype Ports = NoPorts | Ports(sport: PortRange, dport: PortRange)

  /** An address with a prefix length, written "address/prefix". */
  datatype Cidr = Cidr(address: string, prefix: int)

  datatype ConnState = NewOrEstablished | EstablishedOnly

  /** One "-A FORWARD ... -j ACCEPT" line. */
  datatype RuleLine = RuleLine(
    protocol: string,
    ports: Ports,
    src: Cidr,
    dst: Cidr,
    ingress: string,
    egress: string,
    state: ConnState)

  // The text of a line is built left to right, in the order the program
  // concatenates its pieces.

  function WithPorts(acc: string, p: Ports): string {
    match p
    case NoPorts => acc
    case Ports(sport, dport) =>
      acc + " --sport " + Itoa(sport.first) + ":" + Itoa(sport.last)
      + " --dport " + Itoa(dport.first) + ":" + Itoa(dport.last)
  }

  function WithAddresses(acc: string, src: Cidr, dst: Cidr): string {
    acc + " -s " + src.address + "/" + Itoa(src.prefix) + " -d " + dst.address + "/" + Itoa(dst.prefix)
  }

  function WithInterfaces(acc: string, ingress: string, egress: string): string {
    acc + " -i " + ingress + " -o " + egress
  }

  /** The closing piece of a line: the connection-state match, the verdict and the line break. */
  function StateSuffix(st: ConnState): string {
    match st
    case NewOrEstablished => " -m state --state NEW,ESTABLISHED -j ACCEPT\n"
    case EstablishedOnly => " -m state --state ESTABLISHED -j ACCEPT\n"
  }

  function WithState(acc: string, st: ConnState): string {
    acc + StateSuffix(st)
  }

  /** The text of one rule line, line break included. */
  function RenderLine(l: RuleLine): string {
    WithState(WithInterfaces(WithAddresses(WithPorts("-A FORWARD -p " + l.protocol, l.ports),
                                           l.src, l.dst), l.ingress, l.egress), l.state)
  }

  function SubnetCidr(s: Subnet): Cidr {
    Cidr(s.address, s.prefix)
  }

  function FlowPorts(com: Communication): Ports {
    Ports(PortRange(com.sourcePortStart, com.sourcePortEnd), PortRange(com.targetPortStart, com.targetPortEnd))
  }

  function SwapPorts(p: Ports): Ports {
    match p
    case NoPorts => NoPorts
    case Ports(sport, dport) => Ports(dport, sport)
  }

  /** The indices the builders use are all in range. */
  predicate HopInRange(input: Input, com: Communication, routerID: int, sourceSubnetID: int, destSubnetID: int,
                       interfaces: seq<seq<string>>)
  {
    && 0 <= com.sourceSubnetId < |input.net.subnets|
    && 0 <= com.targetSubnetId < |input.net.subnets|
    && 0 <= routerID < |interfaces|
    && 0 <= sourceSubnetID < |interfaces[routerID]|
    && 0 <= destSubnetID < |interfaces[routerID]|
  }

  /**
   * The forward rule at one router hop: from the communication's source subnet
   * to its target subnet, entering on the interface toward sourceSubnetID and
   * leaving on the interface toward destSubnetID, for new or established flows.
   */
  function ForwardLine(input: Input, com: Communication, routerID: int, sourceSubnetID: int, destSubnetID: int,
                       interfaces: seq<seq<string>>, ports: Ports): (l: RuleLine)
    requires HopInRange(input, com, routerID, sourceSubnetID, destSubnetID, interfaces)
  {
    RuleLine(com.protocol, ports,
             SubnetCidr(input.net.subnets[com.sourceSubnetId]),
             SubnetCidr(input.net.subnets[com.targetSubnetId]),
             interfaces[routerID][sourceSubnetID], interfaces[routerID][destSubnetID],
             NewOrEstablished)
  }

  /**
   * The return rule paired with a forward rule: port ranges, addresses and
   * interfaces are swapped, but the prefix lengths stay where they were, so
   * "-s" carries the target address with the source prefix and "-d" the source
   * address with the target prefix.
   */
  function ReturnLine(f: RuleLine, state: ConnState): (r: RuleLine)
    ensures r.src.address == f.dst.address && r.dst.address == f.src.address
    ensures r.src.prefix == f.src.prefix && r.dst.prefix == f.dst.prefix
    ensures r.ingress == f.egress && r.egress == f.ingress
    ensures f.ports.Ports? ==> r.ports == Ports(f.ports.dport, f.ports.sport)
    ensures f.ports.NoPorts? ==> r.ports.NoPorts?
  {
    RuleLine(f.protocol, SwapPorts(f.ports),
             Cidr(f.dst.address, f.src.prefix), Cidr(f.src.address, f.dst.prefix),
             f.egress, f.ingress, state)
  }

  /**
   * tcpUdpRule: the forward line with both port ranges, and, for a
   * bidirectional flow, the return line restricted to established connections.
   */
  function TcpUdpRule(input: Input, com: Communication, routerID: int, sourceSubnetID: int, destSubnetID: int,
                      interfaces: seq<seq<string>>, bidirectional: bool): string
    requires HopInRange(input, com, routerID, sourceSubnetID, destSubnetID, interfaces)
  {
    var src := input.net.subnets[com.sourceSubnetId];
    var dst := input.net.subnets[com.targetSubnetId];
    var rule := "-A FORWARD -p " + com.protocol + " --sport " + Itoa(com.sourcePortStart)
      + ":" + Itoa(com.sourcePortEnd) + " --dport " + Itoa(com.targetPortStart) + ":" + Itoa(com.targetPortEnd)
      + " -s " + src.address + "/" + Itoa(src.prefix)
      + " -d " + dst.address + "/" + Itoa(dst.prefix)
      + " -i " + interfaces[routerID][sourceSubnetID] + " -o " + interfaces[routerID][destSubnetID]
      + " -m state --state NEW,ESTABLISHED -j ACCEPT\n";
    if bidirectional then
      rule + ("-A FORWARD -p " + com.protocol + " --sport " + Itoa(com.targetPortStart) + ":" + Itoa(com.targetPortEnd)
      + " --dport " + Itoa(com.sourcePortStart) + ":" + Itoa(com.sourcePortEnd)
      + " -s " + dst.address + "/" + Itoa(src.prefix)
      + " -d " + src.address + "/" + Itoa(dst.prefix)
      + " -i " + interfaces[routerID][destSubnetID] + " -o " + interfaces[routerID][sourceSubnetID]
      + " -m state --state ESTABLISHED -j ACCEPT\n")
    else
      rule
  }

  /**
   * icmpRule: the same addressing without port ranges; the return line of a
   * bidirectional flow still admits new connections.
   */
  function IcmpRule(input: Input, com: Communication, routerID: int, sourceSubnetID: int, destSubnetID: int,
                    interfaces: seq<seq<string>>, bidirectional: bool): string
    requires HopInRange(input, com, routerID, sourceSubnetID, destSubnetID, interfaces)
  {
    var src := input.net.subnets[com.sourceSubnetId];
    var dst := input.net.subnets[com.targetSubnetId];
    var rule := "-A FORWARD -p " + com.protocol + " -s " + src.address + "/" + Itoa(src.prefix)
      + " -d " + dst.address + "/" + Itoa(dst.prefix)
      + " -i " + interfaces[routerID][sourceSubnetID] + " -o " + interfaces[routerID][destSubnetID]
      + " -m state --state NEW,ESTABLISHED -j ACCEPT\n";
    if bidirectional then
      rule + ("-A FORWARD -p " + com.protocol + " -s " + dst.address + "/" + Itoa(src.prefix)
      + " -d " + src.address + "/" + Itoa(dst.prefix)
      + " -i " + interfaces[routerID][destSubnetID] + " -o " + interfaces[routerID][sourceSubnetID]
      + " -m state --state NEW,ESTABLISHED -j ACCEPT\n")
    else
      rule
  }

  /**
   * tcpUdpRule's text is the forward line with both port ranges, followed, for
   * a bidirectional flow, by its return line admitting established flows only.
   */
  lemma TcpUdpRuleLines(input: Input, com: Communication, routerID: int, sourceSubnetID: int, destSubnetID: int,
                        interfaces: seq<seq<string>>, bidirectional: bool)
    requires HopInRange(input, com, routerID, sourceSubnetID, destSubnetID, interfaces)
    ensures var f := ForwardLine(input, com, routerID, sourceSubnetID, destSubnetID, interfaces, FlowPorts(com));
            TcpUdpRule(input, com, routerID, sourceSubnetID, destSubnetID, interfaces, bidirectional)
            == if bidirectional then RenderLine(f) + RenderLine(ReturnLine(f, EstablishedOnly)) else RenderLine(f)
  {
  }

  /**
   * icmpRule's text is the forward line without ports, followed, for a
   * bidirectional flow, by its return line, which still admits new flows.
   */
  lemma IcmpRuleLines(input: Input, com: Communication, routerID: int, sourceSubnetID: int, destSubnetID: int,
                      interfaces: seq<seq<string>>, bidirectional: bool)
    requires HopInRange(input, com, routerID, sourceSubnetID, destSubnetID, interfaces)
    ensures var f := ForwardLine(input, com, routerID, sourceSubnetID, destSubnetID, interfaces, NoPorts);
            IcmpRule(input, com, routerID, sourceSubnetID, destSubnetID, interfaces, bidirectional)
            == if bidirectional then RenderLine(f) + RenderLine(ReturnLine(f, NewOrEstablished)) else RenderLine(f)
  {
  }

  // ---------------------------------------------------------------------
  // Line counts

  /** The number of line breaks in a text. */
  function CountNewlines(s: string): nat {
    if |s| == 0 then 0 else CountNewlines(s[..|s| - 1]) + (if s[|s| - 1] == '\n' then 1 else 0)
  }

  lemma {:induction false} CountNewlinesAppend(a: string, b: string)
    ensures CountNewlines(a + b) == CountNewlines(a) + CountNewlines(b)
    decreases |b|
  {
    if |b| > 0 {
      assert (a + b)[..|a + b| - 1] == a + b[..|b| - 1];
      CountNewlinesAppend(a, b[..|b| - 1]);
    } else {
      assert a + b == a;
    }
  }

  lemma {:induction false} CountNewlinesNone(s: string)
    requires '\n' !in s
    ensures CountNewlines(s) == 0
    decreases |s|
  {
    if |s| > 0 {
      assert forall c :: c in s[..|s| - 1] ==> c in s;
      CountNewlinesNone(s[..|s| - 1]);
    }
  }

  /** A text made of a break-free head and one line break holds exactly one line break. */
  lemma OneBreakAtEnd(head: string)
    requires '\n' !in head
    ensures CountNewlines(head + "\n") == 1
  {
    CountNewlinesNone(head);
    CountNewlinesAppend(head, "\n");
    assert CountNewlines("\n") == 1 by {
      assert "\n"[..0] == "";
    }
  }

  /** Each state suffix holds exactly one line break. */
  lemma StateSuffixOneBreak(st: ConnState)
    ensures CountNewlines(StateSuffix(st)) == 1
  {
    match st {
      case NewOrEstablished =>
        var head := " -m state --state NEW,ESTABLISHED -j ACCEPT";
        assert StateSuffix(st) == head + "\n";
        OneBreakAtEnd(head);
      case EstablishedOnly =>
        var head := " -m state --state ESTABLISHED -j ACCEPT";
        assert StateSuffix(st) == head + "\n";
        OneBreakAtEnd(head);
    }
  }

  /** No free-text field of the line contains a line break. */
  predicate SingleLineFields(l: RuleLine) {
    '\n' !in l.protocol && '\n' !in l.src.address && '\n' !in l.dst.address
    && '\n' !in l.ingress && '\n' !in l.egress
  }

  lemma WithPortsOneLine(acc: string, p: Ports)
    requires '\n' !in acc
    ensures '\n' !in WithPorts(acc, p)
  {
    match p {
      case NoPorts =>
      case Ports(sport, dport) =>
        ItoaOneToken(sport.first);
        ItoaOneToken(sport.last);
        ItoaOneToken(dport.first);
        ItoaOneToken(dport.last);
    }
  }

  lemma WithAddressesOneLine(acc: string, src: Cidr, dst: Cidr)
    requires '\n' !in acc && '\n' !in src.address && '\n' !in dst.address
    ensures '\n' !in WithAddresses(acc, src, dst)
  {
    ItoaOneToken(src.prefix);
    ItoaOneToken(dst.prefix);
  }

  /** A rendered rule is exactly one line: one line break, at its end. */
  lemma RenderLineIsOneLine(l: RuleLine)
    requires SingleLineFields(l)
    ensures CountNewlines(RenderLine(l)) == 1
    ensures RenderLine(l)[|RenderLine(l)| - 1] == '\n'
  {
    var start := "-A FORWARD -p " + l.protocol;
    WithPortsOneLine(start, l.ports);
    WithAddressesOneLine(WithPorts(start, l.ports), l.src, l.dst);
    var body := WithInterfaces(WithAddresses(WithPorts(start, l.ports), l.src, l.dst), l.ingress, l.egress);
    assert '\n' !in body;
    CountNewlinesNone(body);
    StateSuffixOneBreak(l.state);
    CountNewlinesAppend(body, StateSuffix(l.state));
  }

  /** The free-text inputs a hop's rules are made from contain no line break. */
  predicate SingleLineInputs(input: Input, com: Communication, routerID: int, sourceSubnetID: int, destSubnetID: int,
                             interfaces: seq<seq<string>>)
    requires HopInRange(input, com, routerID, sourceSubnetID, destSubnetID, interfaces)
  {
    && '\n' !in com.protocol
    && '\n' !in input.net.subnets[com.sourceSubnetId].address
    && '\n' !in input.net.subnets[com.targetSubnetId].address
    && '\n' !in interfaces[routerID][sourceSubnetID]
    && '\n' !in interfaces[routerID][destSubnetID]
  }

  /** A forward line, optionally followed by a return line, is one or two lines of text. */
  lemma PairLineCount(f: RuleLine, ret: RuleLine, bidirectional: bool)
    requires SingleLineFields(f) && SingleLineFields(ret)
    ensures CountNewlines(if bidirectional then RenderLine(f) + RenderLine(ret) else RenderLine(f))
            == if bidirectional then 2 else 1
  {
    RenderLineIsOneLine(f);
    RenderLineIsOneLine(ret);
    CountNewlinesAppend(RenderLine(f), RenderLine(ret));
  }

  /** tcpUdpRule emits one line, or two for a bidirectional flow. */
  lemma TcpUdpRuleLineCount(input: Input, com: Communication, routerID: int, sourceSubnetID: int, destSubnetID: int,
                            interfaces: seq<seq<string>>, bidirectional: bool)
    requires HopInRange(input, com, routerID, sourceSubnetID, destSubnetID, interfaces)
    requires SingleLineInputs(input, com, routerID, sourceSubnetID, destSubnetID, interfaces)
    ensures CountNewlines(TcpUdpRule(input, com, routerID, sourceSubnetID, destSubnetID, interfaces, bidirectional))
            == if bidirectional then 2 else 1
  {
    TcpUdpRuleLines(input, com, routerID, sourceSubnetID, destSubnetID, interfaces, bidirectional);
    var f := ForwardLine(input, com, routerID, sourceSubnetID, destSubnetID, interfaces, FlowPorts(com));
    PairLineCount(f, ReturnLine(f, EstablishedOnly), bidirectional);
  }

  /** icmpRule emits one line, or two for a bidirectional flow. */
  lemma IcmpRuleLineCount(input: Input, com: Communication, routerID: int, sourceSubnetID: int, destSubnetID: int,
                          interfaces: seq<seq<string>>, bidirectional: bool)
    requires HopInRange(input, com, routerID, sourceSubnetID, destSubnetID, interfaces)
    requires SingleLineInputs(input, com, routerID, sourceSubnetID, destSubnetID, interfaces)
    ensures CountNewlines(IcmpRule(input, com, routerID, sourceSubnetID, destSubnetID, interfaces, bidirectional))
            == if bidirectional then 2 else 1
  {
    IcmpRuleLines(input, com, routerID, sourceSubnetID, destSubnetID, interfaces, bidirectional);
    var f := ForwardLine(input, com, routerID, sourceSubnetID, destSubnetID, interfaces, NoPorts);
    PairLineCount(f, ReturnLine(f, NewOrEstablished), bidirectional);
  }

  // ---------------------------------------------------------------------
  // The rule document

  /** The nat table (accept everything) and the head of the filter table (drop by default). */
  const Preamble: string :=
    "* nat\n" + ":OUTPUT ACCEPT [0:0]\n" + ":PREROUTING ACCEPT [0:0]\n"
    + ":POSTROUTING ACCEPT [0:0]\n" + "\n" + "COMMIT\n" + "\n" + "* filter\n"
    + ":INPUT DROP [0:0]\n" + ":OUTPUT DROP [0:0]\n:FORWARD DROP [0:0]\n"

  const Trailer: string := "\n" + "COMMIT\n"

  /** The iptables-restore document for one router: preamble, its rules, then the filter table's COMMIT. */
  function Document(rules: string): (doc: string)
    ensures |doc| == |Preamble| + |rules| + |Trailer|
    ensures doc[..|Preamble|] == Preamble
    ensures doc[|Preamble|..|Preamble| + |rules|] == rules
    ensures doc[|Preamble| + |rules|..] == Trailer
  {
    "" + Preamble + rules + Trailer
  }

  /** The rules can be read back out of a document, so distinct rule texts give distinct documents. */
  lemma DocumentInjective(a: string, b: string)
    requires Document(a) == Document(b)
    ensures a == b
  {
    assert a == Document(a)[|Preamble|..|Preamble| + |a|];
  }
}
