/**
 * The UDP analyzer (udp_analyzer.py), which keeps the DNS traffic in the
 * lines that `tcpdump -n -t -v` prints: the address match (no trailing `:`),
 * the port-53 filter, the query/response label, the analyzer's packet list,
 * the query/response split and the diagram layout.
 */
module DnsAnalysis {
  import opened Wrappers
  import opened Text
  import opened Patterns
  import Capture
  import Layout

  /** The two labels a kept line can get. */
  datatype DnsKind = Query | Response

  /** The string the script stores in a packet's `type`. */
  function KindText(k: DnsKind): string {
    match k
    case Query => "Requête DNS"
    case Response => "Réponse DNS"
  }

  /** A stored DNS packet: the record `parse_packet_line` returns. */
  datatype DnsPacket = DnsPacket(
    srcIp: string, srcPort: nat, dstIp: string, dstPort: nat, kind: DnsKind, rawLine: string)

  const DnsPort: nat := 53

  /**
   * The record for a line, or None when the address pattern misses or neither
   * port is 53. A packet to port 53 is a query, any other kept packet a
   * response, and the record keeps the line as it came, unstripped.
   */
  function ParseDnsLine(line: string): (r: Option<DnsPacket>)
    ensures r.Some? ==> r.value.srcPort == DnsPort || r.value.dstPort == DnsPort
    ensures r.Some? ==> (r.value.kind == Query <==> r.value.dstPort == DnsPort)
    ensures r.Some? ==> r.value.rawLine == line
  {
    match FindAddress(line, false)
    case None => None
    case Some(m) =>
      var srcPort := DecimalValue(m.groups[4]);
      var dstPort := DecimalValue(m.groups[9]);
      if srcPort == DnsPort || dstPort == DnsPort then
        var kind := if dstPort == DnsPort then Query else Response;
        Some(DnsPacket(IpText(m.groups, 0), srcPort, IpText(m.groups, 5), dstPort, kind, line))
      else None
  }

  /**
   * With the leftmost match of the address pattern, the line is kept exactly
   * when one of the matched ports is 53, and the record holds the matched
   * addresses and the values of the matched port digits.
   */
  lemma ParseDnsLineOfMatch(line: string, k: nat, gs: seq<string>)
    requires LeftmostAddress(line, false, k, gs)
    ensures AllDigits(gs[4]) && AllDigits(gs[9])
    ensures ParseDnsLine(line).Some? <==> DecimalValue(gs[4]) == DnsPort || DecimalValue(gs[9]) == DnsPort
    ensures ParseDnsLine(line).Some? ==>
              var p := ParseDnsLine(line).value;
              && p.srcIp == IpText(gs, 0) && p.srcPort == DecimalValue(gs[4])
              && p.dstIp == IpText(gs, 5) && p.dstPort == DecimalValue(gs[9])
  {
    MatchDigits(line, k, AddressSeps(false), gs);
    FindAddressOfLeftmost(line, false, k, gs);
  }

  /** A line the address pattern does not match anywhere gives no record. */
  lemma ParseDnsLineNoMatch(line: string)
    requires forall k: nat, gs :: !GroupsMatchAt(line, k, AddressSeps(false), gs)
    ensures ParseDnsLine(line).None?
  {
    FindAddressIsLeftmost(line, false);
  }

  /** A blank line gives no record: it holds no digit for the address pattern to start on. */
  lemma BlankLineNotParsed(line: string)
    requires IsBlank(line)
    ensures ParseDnsLine(line).None?
  {
    var seps := AddressSeps(false);
    forall k: nat, gs ensures !GroupsMatchAt(line, k, seps, gs) {
      if |gs| == |seps| && gs[0] != [] && IsPrefixAt(line, k, gs[0] + seps[0]) {
        assert line[k] == gs[0][0];
      }
    }
    ParseDnsLineNoMatch(line);
  }

  /** Since blank lines never parse, the loop's blank-line test changes nothing for this parser. */
  lemma BlankSkipIsRedundant(lines: seq<string>)
    ensures Capture.Collect(lines, ParseDnsLine) == Capture.ParseAll(lines, ParseDnsLine)
  {
    forall line | IsBlank(line) ensures ParseDnsLine(line).None? {
      BlankLineNotParsed(line);
    }
    Capture.CollectSkipIsRedundant(lines, ParseDnsLine);
  }

  // ---------------------------------------------------------------------------
  // The query/response split

  /** `[p for p in packets if p['type'] == 'Requête DNS']`: the queries, in order. */
  function Queries(ps: seq<DnsPacket>): (qs: seq<DnsPacket>)
    ensures |qs| <= |ps|
    ensures forall p :: p in qs <==> p in ps && p.kind == Query
  {
    if ps == [] then []
    else
      var last := ps[|ps| - 1];
      assert forall p :: p in ps <==> p in ps[..|ps| - 1] || p == last;
      Queries(ps[..|ps| - 1]) + if KindText(last.kind) == "Requête DNS" then [last] else []
  }

  /** `[p for p in packets if p['type'] == 'Réponse DNS']`: the responses, in order. */
  function Responses(ps: seq<DnsPacket>): (rs: seq<DnsPacket>)
    ensures |rs| <= |ps|
    ensures forall p :: p in rs <==> p in ps && p.kind == Response
  {
    if ps == [] then []
    else
      var last := ps[|ps| - 1];
      assert forall p :: p in ps <==> p in ps[..|ps| - 1] || p == last;
      Responses(ps[..|ps| - 1]) + if KindText(last.kind) == "Réponse DNS" then [last] else []
  }

  /**
   * The two lists split the packets: together they hold each packet exactly
   * as many times as the capture does, so a query printed twice is counted twice.
   */
  lemma {:induction false} QueriesAndResponsesPartition(ps: seq<DnsPacket>)
    ensures multiset(Queries(ps)) + multiset(Responses(ps)) == multiset(ps)
    decreases |ps|
  {
    if ps != [] {
      var front := ps[..|ps| - 1];
      QueriesAndResponsesPartition(front);
      QueriesStep(ps);
      ResponsesStep(ps);
      SplitStep(ps, Queries(front), Responses(front), Queries(ps), Responses(ps), ps[|ps| - 1].kind == Query);
    }
  }

  /** The last packet joins the queries exactly when it is labelled a query. */
  lemma QueriesStep(ps: seq<DnsPacket>)
    requires ps != []
    ensures Queries(ps) == Queries(ps[..|ps| - 1]) + if ps[|ps| - 1].kind == Query then [ps[|ps| - 1]] else []
  {
    assert KindText(ps[|ps| - 1].kind) == "Requête DNS" <==> ps[|ps| - 1].kind == Query;
  }

  /** The last packet joins the responses exactly when it is labelled a response. */
  lemma ResponsesStep(ps: seq<DnsPacket>)
    requires ps != []
    ensures Responses(ps) == Responses(ps[..|ps| - 1]) + if ps[|ps| - 1].kind == Response then [ps[|ps| - 1]] else []
  {
    assert KindText(ps[|ps| - 1].kind) == "Réponse DNS" <==> ps[|ps| - 1].kind == Response;
  }

  /** Adding the last element of `s` to one side of a split of the rest splits `s`. */
  lemma SplitStep<T>(s: seq<T>, a: seq<T>, b: seq<T>, a': seq<T>, b': seq<T>, left: bool)
    requires s != [] && multiset(a) + multiset(b) == multiset(s[..|s| - 1])
    requires left ==> a' == a + [s[|s| - 1]] && b' == b
    requires !left ==> a' == a && b' == b + [s[|s| - 1]]
    ensures multiset(a') + multiset(b') == multiset(s)
  {
    var x := s[|s| - 1];
    assert s == s[..|s| - 1] + [x];
    assert multiset(s) == multiset(s[..|s| - 1]) + multiset{x};
    if left {
      assert multiset(a + [x]) == multiset(a) + multiset{x};
    } else {
      assert multiset(b + [x]) == multiset(b) + multiset{x};
    }
  }

  /** Every stored packet is either a query or a response, so the two lists together count all packets. */
  lemma {:induction false} QueriesAndResponsesCoverPackets(ps: seq<DnsPacket>)
    ensures |Queries(ps)| + |Responses(ps)| == |ps|
    decreases |ps|
  {
    if ps != [] {
      QueriesAndResponsesCoverPackets(ps[..|ps| - 1]);
    }
  }

  class UdpAnalyzer {
    const pcapFile: string
    var packets: seq<DnsPacket>

    constructor (pcapFile: string)
      ensures this.pcapFile == pcapFile && packets == []
    {
      this.pcapFile := pcapFile;
      packets := [];
    }

    /** The line loop of `parse_pcap` over the lines of tcpdump's output. */
    method ParsePcap(lines: seq<string>)
      modifies this
      ensures packets == old(packets) + Capture.Collect(lines, ParseDnsLine)
    {
      var found := Capture.ParseLines(lines, ParseDnsLine);
      packets := packets + found;
    }

    /** The participants and arrows of `create_sequence_diagram`. */
    method SequenceLayout() returns (participants: seq<string>, arrows: seq<Layout.Arrow>)
      ensures Layout.StrictlySorted(participants)
      ensures forall ip :: ip in participants <==> exists i :: 0 <= i < |packets| && (packets[i].srcIp == ip || packets[i].dstIp == ip)
      ensures |arrows| == |packets|
      ensures forall i :: 0 <= i < |packets| ==>
                && arrows[i].fromX < |participants| && participants[arrows[i].fromX] == packets[i].srcIp
                && arrows[i].toX < |participants| && participants[arrows[i].toX] == packets[i].dstIp
                && arrows[i].row == |packets| - i
    {
      var src, dst := (p: DnsPacket) => p.srcIp, (p: DnsPacket) => p.dstIp;
      var ends := Layout.Endpoints(packets, src, dst);
      participants, arrows := Layout.Diagram(ends);
      forall ip ensures ip in participants <==> exists i :: 0 <= i < |packets| && (packets[i].srcIp == ip || packets[i].dstIp == ip) {
        Layout.EndpointsIps(packets, src, dst, ip);
      }
    }
  }
}
