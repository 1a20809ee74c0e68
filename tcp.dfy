/**
 * The TCP analyzer (tcp_analyzer.py) on the lines that `tcpdump -n -t -v`
 * prints: the address match, the eleven packet labels, the seq/ack/flags
 * details, the packet record, the analyzer's packet list, the label
 * histogram, the connection phases, and the diagram layout.
 */
module TcpAnalysis {
  import opened Wrappers
  import opened Text
  import opened Patterns
  import Capture
  import Layout

  /** The label `classify_tcp_packet` gives a line. */
  datatype TcpKind =
    | Syn | SynAck | Ack | PshAck | FinAck | Fin | Rst
    | HttpRequest | HttpResponse | Data | Other

  /** The string the script stores in a packet's `type`. */
  function KindText(k: TcpKind): string {
    match k
    case Syn => "SYN"
    case SynAck => "SYN-ACK"
    case Ack => "ACK"
    case PshAck => "PSH-ACK"
    case FinAck => "FIN-ACK"
    case Fin => "FIN"
    case Rst => "RST"
    case HttpRequest => "Requête HTTP"
    case HttpResponse => "Réponse HTTP"
    case Data => "DATA"
    case Other => "OTHER"
  }

  /** Every label, each once. */
  const AllKinds: seq<TcpKind> :=
    [Syn, SynAck, Ack, PshAck, FinAck, Fin, Rst, HttpRequest, HttpResponse, Data, Other]

  /** Different labels have different strings, so the string determines the label. */
  lemma KindTextInjective(a: TcpKind, b: TcpKind)
    ensures KindText(a) == KindText(b) <==> a == b
  {
  }

  // ---------------------------------------------------------------------------
  // classify_tcp_packet

  /** The substring tests in order; the first that succeeds decides the label. */
  function Classify(line: string): TcpKind {
    if Contains(line, "Flags [S]") && !Contains(line, "Flags [S.]") then Syn
    else if Contains(line, "Flags [S.]") || Contains(line, "Flags [SA]") then SynAck
    else if Contains(line, "Flags [.]") && Contains(line, "length 0") then Ack
    else if Contains(line, "Flags [P.]") || Contains(line, "Flags [PA]") then PshAck
    else if Contains(line, "Flags [F.]") || Contains(line, "Flags [FA]") then FinAck
    else if Contains(line, "Flags [F]") then Fin
    else if Contains(line, "Flags [R]") then Rst
    else if Contains(line, "GET /") || Contains(line, "POST /") then HttpRequest
    else if Contains(line, "HTTP/") && (Contains(line, "200") || Contains(line, "404")) then HttpResponse
    else if Contains(line, "length") && !Contains(line, "length 0") then Data
    else Other
  }

  /** One of the six flag tests before the RST test (SYN, SYN-ACK, ACK, PSH-ACK, FIN-ACK, FIN) succeeds. */
  predicate EarlierFlagTest(line: string) {
    || Contains(line, "Flags [S]") || Contains(line, "Flags [S.]") || Contains(line, "Flags [SA]")
    || (Contains(line, "Flags [.]") && Contains(line, "length 0"))
    || Contains(line, "Flags [P.]") || Contains(line, "Flags [PA]")
    || Contains(line, "Flags [F.]") || Contains(line, "Flags [FA]") || Contains(line, "Flags [F]")
  }

  lemma ClassifySyn(line: string)
    ensures Classify(line) == Syn <==> Contains(line, "Flags [S]") && !Contains(line, "Flags [S.]")
  {
  }

  /** SYN-ACK: `Flags [S.]` anywhere wins; `Flags [SA]` only when `Flags [S]` is absent. */
  lemma ClassifySynAck(line: string)
    ensures Classify(line) == SynAck <==>
              Contains(line, "Flags [S.]") || (Contains(line, "Flags [SA]") && !Contains(line, "Flags [S]"))
  {
  }

  /** ACK needs a bare-ACK flag text, a zero length, and no SYN flag text. */
  lemma ClassifyAck(line: string)
    ensures Classify(line) == Ack <==>
              && Contains(line, "Flags [.]") && Contains(line, "length 0")
              && !Contains(line, "Flags [S]") && !Contains(line, "Flags [S.]") && !Contains(line, "Flags [SA]")
  {
  }

  /** RST only when `Flags [R]` occurs and none of the earlier flag tests matches. */
  lemma ClassifyRst(line: string)
    ensures Classify(line) == Rst ==> Contains(line, "Flags [R]") && !EarlierFlagTest(line)
    ensures Contains(line, "Flags [R]") && !EarlierFlagTest(line) ==> Classify(line) == Rst
  {
  }

  /** A line reporting `length 0` is never DATA, and a DATA line reports some length. */
  lemma ClassifyData(line: string)
    ensures Contains(line, "length 0") ==> Classify(line) != Data
    ensures Classify(line) == Data ==> Contains(line, "length")
  {
  }

  // ---------------------------------------------------------------------------
  // extract_tcp_details

  /** `seq_num`, `ack_num` and `flags` of a line. */
  datatype TcpDetails = TcpDetails(seqNum: Option<nat>, ackNum: Option<nat>, flags: seq<string>)

  /**
   * The `flags` part: the whitespace-split body of the first `Flags [...]`
   * whose body is non-empty, or no flags when there is none. No token is
   * empty or holds whitespace or `]`.
   */
  function FlagWords(line: string): (ws: seq<string>)
    ensures ws == [] <==> (forall k: nat :: !FlagsAt(line, k)) || IsBlank(FindFlags(line).value)
    ensures forall i :: 0 <= i < |ws| ==>
              ws[i] != [] && forall j :: 0 <= j < |ws[i]| ==> NotSpace(ws[i][j]) && ws[i][j] != ']'
  {
    match FindFlags(line)
    case None => []
    case Some(body) =>
      WordsCharsFromInput(body);
      WordsEmptyIffBlank(body);
      Words(body)
  }

  /** The first `seq N`, the first `ack N`, and the flags of a line. */
  function ExtractDetails(line: string): (d: TcpDetails)
    ensures d.seqNum.None? <==> forall k: nat :: !NumberAt(line, "seq ", k)
    ensures d.ackNum.None? <==> forall k: nat :: !NumberAt(line, "ack ", k)
    ensures d.flags == FlagWords(line)
  {
    TcpDetails(FindNumber(line, "seq "), FindNumber(line, "ack "), FlagWords(line))
  }

  /** `seq_num` is the value of the digits after the leftmost `seq ` that a digit follows, whatever `ack` does. */
  lemma ExtractDetailsSeq(line: string, ks: nat)
    requires NumberAt(line, "seq ", ks) && forall j: nat :: j < ks ==> !NumberAt(line, "seq ", j)
    ensures ExtractDetails(line).seqNum == Some(DecimalValue(NumberDigits(line, "seq ", ks)))
  {
    FindNumberOfLeftmost(line, "seq ", ks);
  }

  /** `ack_num` is the value of the digits after the leftmost `ack ` that a digit follows, whatever `seq` does. */
  lemma ExtractDetailsAck(line: string, ka: nat)
    requires NumberAt(line, "ack ", ka) && forall j: nat :: j < ka ==> !NumberAt(line, "ack ", j)
    ensures ExtractDetails(line).ackNum == Some(DecimalValue(NumberDigits(line, "ack ", ka)))
  {
    FindNumberOfLeftmost(line, "ack ", ka);
  }

  /** The flags are the words of the body of the leftmost `Flags [body]`. */
  lemma ExtractDetailsFlags(line: string, k: nat, body: string)
    requires FlagsMatchAt(line, k, body)
    requires forall j: nat, b :: j < k ==> !FlagsMatchAt(line, j, b)
    ensures ExtractDetails(line).flags == Words(body)
    ensures Flatten(ExtractDetails(line).flags) == NonSpaces(body)
  {
    FindFlagsOfLeftmost(line, k, body);
    WordsFlatten(body);
  }

  // ---------------------------------------------------------------------------
  // parse_packet_line

  /** A stored TCP packet: the record `parse_packet_line` returns. */
  datatype TcpPacket = TcpPacket(
    srcIp: string, srcPort: nat, dstIp: string, dstPort: nat,
    kind: TcpKind, seqNum: Option<nat>, ackNum: Option<nat>, flags: seq<string>,
    rawLine: string)

  /** The ports the analyzer counts as HTTP. */
  const HttpPorts: seq<nat> := [80, 8080, 443, 3000]

  /** The record for a line, or None when the address pattern misses or neither port is an HTTP port. */
  function ParseTcpLine(line: string): (r: Option<TcpPacket>)
    ensures r.Some? ==> r.value.srcPort in HttpPorts || r.value.dstPort in HttpPorts
  {
    match FindAddress(line, true)
    case None => None
    case Some(m) =>
      var srcPort := DecimalValue(m.groups[4]);
      var dstPort := DecimalValue(m.groups[9]);
      var d := ExtractDetails(line);
      if srcPort in HttpPorts || dstPort in HttpPorts then
        Some(TcpPacket(IpText(m.groups, 0), srcPort, IpText(m.groups, 5), dstPort,
                       Classify(line), d.seqNum, d.ackNum, d.flags, Strip(line)))
      else None
  }

  /** A record carries the line's label, its details, and the stripped line. */
  lemma ParseTcpLineRecord(line: string)
    requires ParseTcpLine(line).Some?
    ensures var p := ParseTcpLine(line).value;
            && p.kind == Classify(line) && p.rawLine == Strip(line)
            && TcpDetails(p.seqNum, p.ackNum, p.flags) == ExtractDetails(line)
  {
  }

  /**
   * With the leftmost match of the address pattern (ending in `:`), the line is
   * kept exactly when one of the matched ports is an HTTP port, and the record
   * holds the matched addresses and the values of the matched port digits.
   */
  lemma ParseTcpLineOfMatch(line: string, k: nat, gs: seq<string>)
    requires LeftmostAddress(line, true, k, gs)
    ensures AllDigits(gs[4]) && AllDigits(gs[9])
    ensures ParseTcpLine(line).Some? <==> DecimalValue(gs[4]) in HttpPorts || DecimalValue(gs[9]) in HttpPorts
    ensures ParseTcpLine(line).Some? ==>
              var p := ParseTcpLine(line).value;
              && p.srcIp == IpText(gs, 0) && p.srcPort == DecimalValue(gs[4])
              && p.dstIp == IpText(gs, 5) && p.dstPort == DecimalValue(gs[9])
  {
    MatchDigits(line, k, AddressSeps(true), gs);
    FindAddressOfLeftmost(line, true, k, gs);
  }

  /** A line the address pattern does not match anywhere gives no record. */
  lemma ParseTcpLineNoMatch(line: string)
    requires forall k: nat, gs :: !GroupsMatchAt(line, k, AddressSeps(true), gs)
    ensures ParseTcpLine(line).None?
  {
    FindAddressIsLeftmost(line, true);
  }

  /** A blank line gives no record: it holds no digit for the address pattern to start on. */
  lemma BlankLineNotParsed(line: string)
    requires IsBlank(line)
    ensures ParseTcpLine(line).None?
  {
    var seps := AddressSeps(true);
    forall k: nat, gs ensures !GroupsMatchAt(line, k, seps, gs) {
      if |gs| == |seps| && gs[0] != [] && IsPrefixAt(line, k, gs[0] + seps[0]) {
        assert line[k] == gs[0][0];
      }
    }
    ParseTcpLineNoMatch(line);
  }

  // ---------------------------------------------------------------------------
  // The label histogram and the connection phases

  /** How many packets carry the label string `t`. */
  function CountLabel(ps: seq<TcpPacket>, t: string): nat {
    if ps == [] then 0
    else CountLabel(ps[..|ps| - 1], t) + if KindText(ps[|ps| - 1].kind) == t then 1 else 0
  }

  lemma {:induction false} CountLabelPositive(ps: seq<TcpPacket>, t: string)
    ensures CountLabel(ps, t) > 0 <==> exists i :: 0 <= i < |ps| && KindText(ps[i].kind) == t
    decreases |ps|
  {
    if ps != [] {
      var front := ps[..|ps| - 1];
      CountLabelPositive(front, t);
      if exists i :: 0 <= i < |front| && KindText(front[i].kind) == t {
        var i :| 0 <= i < |front| && KindText(front[i].kind) == t;
        assert ps[i] == front[i];
      }
      forall i | 0 <= i < |ps| - 1 ensures ps[i] == front[i] { }
    }
  }

  /** The counts of the labels in `ks`, added up. */
  function LabelSum(ps: seq<TcpPacket>, ks: seq<TcpKind>): nat {
    if ks == [] then 0 else CountLabel(ps, KindText(ks[0])) + LabelSum(ps, ks[1..])
  }

  /** How many labels in `ks` have the string `t`. */
  function Occurrences(ks: seq<TcpKind>, t: string): nat {
    if ks == [] then 0 else (if KindText(ks[0]) == t then 1 else 0) + Occurrences(ks[1..], t)
  }

  lemma {:induction false} LabelSumStep(ps: seq<TcpPacket>, ks: seq<TcpKind>)
    requires ps != []
    ensures LabelSum(ps, ks) == LabelSum(ps[..|ps| - 1], ks) + Occurrences(ks, KindText(ps[|ps| - 1].kind))
    decreases |ks|
  {
    if ks != [] {
      LabelSumStep(ps, ks[1..]);
    }
  }

  lemma {:induction false} OccurrencesAbsent(ks: seq<TcpKind>, t: string)
    requires forall i :: 0 <= i < |ks| ==> KindText(ks[i]) != t
    ensures Occurrences(ks, t) == 0
    decreases |ks|
  {
    if ks != [] {
      OccurrencesAbsent(ks[1..], t);
    }
  }

  lemma {:induction false} OccurrencesOfDistinct(ks: seq<TcpKind>, k: TcpKind)
    requires forall i, j :: 0 <= i < j < |ks| ==> ks[i] != ks[j]
    requires k in ks
    ensures Occurrences(ks, KindText(k)) == 1
    decreases |ks|
  {
    forall a, b ensures KindText(a) == KindText(b) <==> a == b {
      KindTextInjective(a, b);
    }
    if ks[0] == k {
      OccurrencesAbsent(ks[1..], KindText(k));
    } else {
      OccurrencesOfDistinct(ks[1..], k);
    }
  }

  /** Each label's string occurs once among all labels. */
  lemma OccursOnce(k: TcpKind)
    ensures Occurrences(AllKinds, KindText(k)) == 1
  {
    OccurrencesOfDistinct(AllKinds, k);
  }

  /** Every packet is counted under exactly one label: the counts add up to the number of packets. */
  lemma {:induction false} LabelsCoverPackets(ps: seq<TcpPacket>)
    ensures LabelSum(ps, AllKinds) == |ps|
    decreases |ps|
  {
    if ps == [] {
      assert LabelSum(ps, AllKinds) == 0 by { LabelSumEmpty(AllKinds); }
    } else {
      LabelsCoverPackets(ps[..|ps| - 1]);
      LabelSumStep(ps, AllKinds);
      OccursOnce(ps[|ps| - 1].kind);
    }
  }

  lemma {:induction false} LabelSumEmpty(ks: seq<TcpKind>)
    ensures LabelSum([], ks) == 0
    decreases |ks|
  {
    if ks != [] {
      LabelSumEmpty(ks[1..]);
    }
  }

  /** The histogram's entries for the labels in `ks`, added up (a missing entry adds nothing). */
  function HistogramSum(counts: map<string, nat>, ks: seq<TcpKind>): nat {
    if ks == [] then 0
    else (if KindText(ks[0]) in counts then counts[KindText(ks[0])] else 0) + HistogramSum(counts, ks[1..])
  }

  lemma {:induction false} HistogramSumIsLabelSum(counts: map<string, nat>, ps: seq<TcpPacket>, ks: seq<TcpKind>)
    requires forall t :: t in counts ==> counts[t] == CountLabel(ps, t)
    requires forall t :: t !in counts ==> CountLabel(ps, t) == 0
    ensures HistogramSum(counts, ks) == LabelSum(ps, ks)
    decreases |ks|
  {
    if ks != [] {
      HistogramSumIsLabelSum(counts, ps, ks[1..]);
    }
  }

  /** Flags for the connection phases the report announces. */
  datatype PhaseFlags = PhaseFlags(hasSyn: bool, hasSynAck: bool, hasFin: bool, hasData: bool)

  lemma NoFirstCharNoContains(s: string, t: string)
    requires t != [] && t[0] !in s
    ensures !Contains(s, t)
  {
    forall i: nat | i <= |s| - |t| ensures !IsPrefixAt(s, i, t) {
      if i + |t| <= |s| {
        assert s[i..i + |t|][0] == s[i];
      }
    }
  }

  /** `'FIN' in type` holds for the two closing labels and no other. */
  lemma FinLabels(k: TcpKind)
    ensures Contains(KindText(k), "FIN") <==> k == Fin || k == FinAck
  {
    if k == Fin {
      assert IsPrefixAt(KindText(k), 0, "FIN");
    } else if k == FinAck {
      assert IsPrefixAt(KindText(k), 0, "FIN");
    } else {
      NoFirstCharNoContains(KindText(k), "FIN");
    }
  }

  /** The report's four tests on a label string, read as tests on the label. */
  lemma LabelTests(k: TcpKind)
    ensures KindText(k) == "SYN" <==> k == Syn
    ensures KindText(k) == "SYN-ACK" <==> k == SynAck
    ensures Contains(KindText(k), "FIN") <==> k == Fin || k == FinAck
    ensures KindText(k) in ["Requête HTTP", "Réponse HTTP", "PSH-ACK"] <==> k in {HttpRequest, HttpResponse, PshAck}
  {
    FinLabels(k);
    KindTextInjective(k, Syn);
    KindTextInjective(k, SynAck);
    KindTextInjective(k, HttpRequest);
    KindTextInjective(k, HttpResponse);
    KindTextInjective(k, PshAck);
  }

  /**
   * `has_syn`, `has_syn_ack`, `has_fin` and `has_data` by the report's own
   * tests on the label strings; each holds exactly when some packet carries
   * one of the labels it stands for.
   */
  function Phases(ps: seq<TcpPacket>): (f: PhaseFlags)
    ensures f.hasSyn <==> exists i :: 0 <= i < |ps| && ps[i].kind == Syn
    ensures f.hasSynAck <==> exists i :: 0 <= i < |ps| && ps[i].kind == SynAck
    ensures f.hasFin <==> exists i :: 0 <= i < |ps| && (ps[i].kind == Fin || ps[i].kind == FinAck)
    ensures f.hasData <==> exists i :: 0 <= i < |ps| && ps[i].kind in {HttpRequest, HttpResponse, PshAck}
  {
    forall k
      ensures KindText(k) == "SYN" <==> k == Syn
      ensures KindText(k) == "SYN-ACK" <==> k == SynAck
      ensures Contains(KindText(k), "FIN") <==> k == Fin || k == FinAck
      ensures KindText(k) in ["Requête HTTP", "Réponse HTTP", "PSH-ACK"] <==> k in {HttpRequest, HttpResponse, PshAck}
    {
      LabelTests(k);
    }
    PhaseFlags(
      exists i :: 0 <= i < |ps| && KindText(ps[i].kind) == "SYN",
      exists i :: 0 <= i < |ps| && KindText(ps[i].kind) == "SYN-ACK",
      exists i :: 0 <= i < |ps| && Contains(KindText(ps[i].kind), "FIN"),
      exists i :: 0 <= i < |ps| && KindText(ps[i].kind) in ["Requête HTTP", "Réponse HTTP", "PSH-ACK"])
  }

  /** The phases read off the histogram: a phase is seen exactly when one of its labels has a non-zero count. */
  lemma PhasesFromCounts(ps: seq<TcpPacket>)
    ensures Phases(ps).hasSyn <==> CountLabel(ps, "SYN") > 0
    ensures Phases(ps).hasSynAck <==> CountLabel(ps, "SYN-ACK") > 0
    ensures Phases(ps).hasFin <==> CountLabel(ps, "FIN") + CountLabel(ps, "FIN-ACK") > 0
    ensures Phases(ps).hasData <==>
              CountLabel(ps, "Requête HTTP") + CountLabel(ps, "Réponse HTTP") + CountLabel(ps, "PSH-ACK") > 0
  {
    var f := Phases(ps);
    assert f.hasSyn <==> CountLabel(ps, "SYN") > 0 by {
      CountLabelPositive(ps, "SYN");
    }
    assert f.hasSynAck <==> CountLabel(ps, "SYN-ACK") > 0 by {
      CountLabelPositive(ps, "SYN-ACK");
    }
    assert f.hasFin <==> CountLabel(ps, "FIN") + CountLabel(ps, "FIN-ACK") > 0 by {
      CountLabelPositive(ps, "FIN");
      CountLabelPositive(ps, "FIN-ACK");
      forall i | 0 <= i < |ps|
        ensures Contains(KindText(ps[i].kind), "FIN") <==> KindText(ps[i].kind) == "FIN" || KindText(ps[i].kind) == "FIN-ACK"
      {
        FinLabels(ps[i].kind);
        KindTextInjective(ps[i].kind, Fin);
        KindTextInjective(ps[i].kind, FinAck);
      }
    }
    assert f.hasData <==>
           CountLabel(ps, "Requête HTTP") + CountLabel(ps, "Réponse HTTP") + CountLabel(ps, "PSH-ACK") > 0 by {
      CountLabelPositive(ps, "Requête HTTP");
      CountLabelPositive(ps, "Réponse HTTP");
      CountLabelPositive(ps, "PSH-ACK");
    }
  }

  // ---------------------------------------------------------------------------
  // The analyzer

  class TcpAnalyzer {
    const pcapFile: string
    var packets: seq<TcpPacket>

    constructor (pcapFile: string)
      ensures this.pcapFile == pcapFile && packets == []
    {
      this.pcapFile := pcapFile;
      packets := [];
    }

    /** The line loop of `parse_pcap` over the lines of tcpdump's output. */
    method ParsePcap(lines: seq<string>)
      modifies this
      ensures packets == old(packets) + Capture.Collect(lines, ParseTcpLine)
    {
      var found := Capture.ParseLines(lines, ParseTcpLine);
      packets := packets + found;
    }

    /**
     * The `packet_types` histogram: a label string is a key exactly when some
     * packet carries it, its value is that number of packets, and the values
     * add up to the number of packets.
     */
    method TypeCounts() returns (counts: map<string, nat>)
      ensures forall t :: t in counts <==> CountLabel(packets, t) > 0
      ensures forall t :: t in counts ==> counts[t] == CountLabel(packets, t)
      ensures forall t :: t in counts ==> exists k :: KindText(k) == t
      ensures HistogramSum(counts, AllKinds) == |packets|
    {
      counts := map[];
      for i := 0 to |packets|
        invariant forall t :: t in counts <==> CountLabel(packets[..i], t) > 0
        invariant forall t :: t in counts ==> counts[t] == CountLabel(packets[..i], t)
      {
        assert packets[..i + 1][..i] == packets[..i];
        var ptype := KindText(packets[i].kind);
        counts := counts[ptype := (if ptype in counts then counts[ptype] else 0) + 1];
      }
      assert packets[..|packets|] == packets;
      forall t | t in counts ensures exists k :: KindText(k) == t {
        CountLabelPositive(packets, t);
      }
      HistogramSumIsLabelSum(counts, packets, AllKinds);
      LabelsCoverPackets(packets);
    }

    /** The participants and arrows of `create_sequence_diagram`. */
    method SequenceLayout() returns (participants: seq<string>, arrows: seq<Layout.Arrow>)
      ensures Layout.StrictlySorted(participants)
      ensures forall ip :: ip in participants <==> exists i :: 0 <= i < |packets| && (packets[i].srcIp == ip || packets[i].dstIp == ip)
      ensures |arrows| == |packets|
      ensures forall i :: 0 <= i < |packets| ==>
                && arrows[i].fromX < |participants| && participants[arrows[i].fromX] == packets[i].srcIp
                && arrows[i].toX < |participants| && participants[arrows[i].toX] == packets[i].dstIp
                && arrows[i].row == |packets| - i
    {
      var src, dst := (p: TcpPacket) => p.srcIp, (p: TcpPacket) => p.dstIp;
      var ends := Layout.Endpoints(packets, src, dst);
      participants, arrows := Layout.Diagram(ends);
      forall ip ensures ip in participants <==> exists i :: 0 <= i < |packets| && (packets[i].srcIp == ip || packets[i].dstIp == ip) {
        Layout.EndpointsIps(packets, src, dst, ip);
      }
    }
  }

  /** Since blank lines never parse, the loop's blank-line test changes nothing for this parser. */
  lemma BlankSkipIsRedundant(lines: seq<string>)
    ensures Capture.Collect(lines, ParseTcpLine) == Capture.ParseAll(lines, ParseTcpLine)
  {
    forall line | IsBlank(line) ensures ParseTcpLine(line).None? {
      BlankLineNotParsed(line);
    }
    Capture.CollectSkipIsRedundant(lines, ParseTcpLine);
  }
}
