# A verified model of the reseaux TCP and UDP capture analyzers

The two scripts `tcp_analyzer.py` and `udp_analyzer.py` run `tcpdump -n -t -v`
on a capture file and read its printed lines with regular expressions. The TCP
analyzer keeps the packets that touch an HTTP port. It gives each one of eleven
labels (SYN, SYN-ACK, ACK, PSH-ACK, FIN-ACK, FIN, RST, Requête HTTP, Réponse
HTTP, DATA, OTHER) and pulls out its `seq`, its `ack` and its flags. The UDP
analyzer keeps the packets to or from port 53 and labels each one a DNS query
or a DNS response. Both analyzers then count the labels and lay out a
sequence diagram: the participants are the sorted IP addresses, and there is
one arrow per packet, one row each.

This project models that text-processing core in Dafny:

- `wrappers.dfy` holds `Option`, which stands for Python's `None`-or-value.
- `text.dfy` models the string operations the scripts use:
  - `str.isspace`, `strip()` and `split()`;
  - the substring test `t in s`;
  - `int()` on a digit run;
  - `<` on `str`.
- `patterns.dfy` models the four regular expressions:
  - the address pattern, with and without its trailing `:`;
  - `seq (\d+)` and `ack (\d+)`;
  - `Flags \[([^\]]+)\]`.

  Each has a declarative predicate "the pattern matches at `k`" and a scanner.
  The scanner is proved to find exactly the leftmost match, which is what
  `re.search` returns.
- `capture.dfy` models the line loop of `parse_pcap`.
- `layout.dfy` models the participant list, the column positions and the arrow rows of the diagrams.
- `tcp.dfy` is the TCP analyzer:
  - the classifier, the detail extraction and the line parser;
  - the class `TcpAnalyzer`, whose `packets` list `ParsePcap` grows in place;
  - the label histogram and the connection-phase flags.
- `udp.dfy` is the UDP analyzer:
  - the DNS line parser;
  - the class `UdpAnalyzer`;
  - the query/response split.

Each script operation is modelled by a function:
- `TcpAnalysis.Classify` for `classify_tcp_packet`, `TcpAnalysis.ExtractDetails` for `extract_tcp_details`, and `TcpAnalysis.ParseTcpLine` and `DnsAnalysis.ParseDnsLine` for the two `parse_packet_line`s;
- `Capture.Collect` for what the `parse_pcap` loop appends;
- `Layout.Positions` for the `positions` dictionary of the diagrams;
- `Text.Contains` for `t in s`, `Text.DecimalValue` for `int()` on a run of at most 4300 digits, and `Text.LexLess` for `<` on `str`.

The lemmas in the table below state what these functions promise.

## Model

| member | source | states |
|---|---|---|
| Text.Strip | tcp_analyzer.py:41 | `strip()` yields the empty string exactly when the line is all whitespace. Otherwise the result is a slice of the line, with only whitespace cut from each end, and it neither starts nor ends with whitespace |
| Text.Words | tcp_analyzer.py:131 | `split()` yields words that are non-empty and hold no whitespace |
| Text.WordsFlatten | tcp_analyzer.py:131 | The words of `split()`, put end to end, are exactly the non-whitespace characters of the input, in order |
| Text.WordsCharsFromInput | tcp_analyzer.py:131 | Every character of every word comes from the input |
| Text.WordsEmptyIffBlank | tcp_analyzer.py:131 | `split()` finds no word exactly when the input is all whitespace |
| Text.WordsOfWord | tcp_analyzer.py:131 | A non-empty string with no whitespace splits into one word, itself |
| Text.WordsSplitAtSpace | tcp_analyzer.py:131 | A whitespace character splits the string there: the words of `a + c + b` are the words of `a` followed by those of `b`. With `Text.WordsOfWord` this fixes `split()` as the maximal runs of non-whitespace |
| Text.LexLessIrreflexive | tcp_analyzer.py:179 | No string sorts before itself |
| Text.LexLessTransitive | tcp_analyzer.py:179 | Python's string order is transitive |
| Text.LexLessTotal | tcp_analyzer.py:179 | Of two different strings, one sorts before the other |
| Text.LexLessAsymmetric | tcp_analyzer.py:179 | Two strings never sort before each other |
| Patterns.FirstFrom | tcp_analyzer.py:59 | The search returns the least position that satisfies the test, or None when no position in range does |
| Patterns.ScanGroups | tcp_analyzer.py:58-59 | A successful scan gives one group per digit group of the pattern |
| Patterns.ScanGroupsDigits | tcp_analyzer.py:58-59 | Every group of a successful scan is a non-empty run of digits |
| Patterns.MatchDigits | tcp_analyzer.py:58 | Every group of a match of the pattern is a non-empty run of digits |
| Patterns.ScanGroupsHead | tcp_analyzer.py:58-59 | A successful scan read the longest digit run at the position, then the separator after it, and found the rest of the pattern from there |
| Patterns.MatchOfRun | tcp_analyzer.py:58-59 | The longest digit run and its separator, followed by a match of the rest of the pattern, form a match of the whole pattern |
| Patterns.ScanGroupsSound | tcp_analyzer.py:58-59 | What the scanner reads is a match of the pattern at that position |
| Patterns.ScanGroupsUnfold | tcp_analyzer.py:58-59 | A digit run and its separator, followed by a successful scan of the rest, make a successful scan whose first group is that run |
| Patterns.MatchHead | tcp_analyzer.py:58-59 | In any match, the first group is the whole digit run at the position, because the separator after it does not start with a digit; the rest of the match follows that separator |
| Patterns.ScanGroupsStep | tcp_analyzer.py:58-59 | If the scanner finds the rest of a match after its first group and separator, it finds the whole match |
| Patterns.ScanGroupsComplete | tcp_analyzer.py:58-59 | Every match of the pattern at a position is what the scanner reads there |
| Patterns.GroupsMatchUnique | tcp_analyzer.py:58-59 | The pattern matches at a given position with at most one set of groups |
| Patterns.AddressSeps | udp_analyzer.py:57 | The address pattern has ten digit groups. No separator starts with a digit, and only the last may be empty (the UDP pattern has no trailing `:`) |
| Patterns.FindAddress | tcp_analyzer.py:58-65 | A match has ten groups, each a non-empty run of digits, so `int()` of a port group is defined |
| Patterns.FindAddressIsLeftmost | tcp_analyzer.py:59 | `re.search` of the address pattern gives the leftmost match. It gives None exactly when the pattern matches nowhere |
| Patterns.FindAddressOfLeftmost | tcp_analyzer.py:59-65 | The leftmost match determines the position and groups found |
| Patterns.DropLastSeparator | udp_analyzer.py:57 | Dropping a last separator that does not start with a digit keeps every match, with the same groups |
| Patterns.ColonMatchIsPlainMatch | udp_analyzer.py:57 | Wherever the TCP address pattern matches, the UDP pattern matches with the same groups |
| Patterns.ColonSearchIsNoEarlier | udp_analyzer.py:57-58 | A line in which the TCP search finds an address is also matched by the UDP search, at the same or an earlier position |
| Patterns.NumberDigits | tcp_analyzer.py:119-121 | The group of `seq (\d+)` is the full digit run after the keyword |
| Patterns.FindNumber | tcp_analyzer.py:119-126 | The number is None exactly when the keyword followed by a digit occurs nowhere |
| Patterns.FindNumberOfLeftmost | tcp_analyzer.py:119-126 | The number is `int()` of the digit run after the leftmost keyword that a digit follows |
| Patterns.FlagsBody | tcp_analyzer.py:129-131 | The scanned body is a match of `Flags \[([^\]]+)\]` |
| Patterns.FlagsMatchIsScanned | tcp_analyzer.py:129 | Every match of the flags pattern is found by the scanner, with the same body |
| Patterns.FindFlags | tcp_analyzer.py:129-131 | The flags body is None exactly when no `Flags [` is followed by a non-empty body closed by `]`. A body found is non-empty and holds no `]` |
| Patterns.FindFlagsOfLeftmost | tcp_analyzer.py:129-131 | The body found is the body of the leftmost match |
| Capture.CollectAppend | tcp_analyzer.py:40-46 | Running the loop over two batches of lines in turn gives what one run over both gives |
| Capture.CollectStep | tcp_analyzer.py:40-46 | One more line either leaves the stored packets as they were (blank line or no record) or appends that line's record |
| Capture.ParseLines | tcp_analyzer.py:40-46 | The loop returns, in order, the parse results of the non-blank lines that gave a record |
| Capture.CollectBound | tcp_analyzer.py:40-46 | The loop appends at most one packet per non-blank line |
| Capture.CollectOrigin | udp_analyzer.py:39-45 | Every stored packet is the parse result of some non-blank line |
| Capture.CollectSkipIsRedundant | tcp_analyzer.py:41-42 | For a parser that rejects blank lines, skipping blank lines changes nothing |
| Layout.Least | tcp_analyzer.py:178-179 | The result belongs to the set and sorts before every other element |
| Layout.SortSet | tcp_analyzer.py:178-179 | `list(set)` then `sort()` gives each element of the set exactly once, in strictly increasing order |
| Layout.SortedUnique | tcp_analyzer.py:178-179 | Two strictly sorted lists with the same elements are equal, so the participant list does not depend on the set's iteration order |
| Layout.Participants | udp_analyzer.py:115-121 | The participants are sorted without repeats. They are exactly the IPs at either end of some packet |
| Layout.EndpointsIps | udp_analyzer.py:115-121 | The IPs collected from the packets' (source, destination) pairs are exactly the IPs at either end of some packet |
| Layout.PositionsOfSorted | udp_analyzer.py:124 | The positions map each participant to its own index. It is a bijection between the participants and 0..n-1 |
| Layout.PositionsKeepOrder | udp_analyzer.py:124 | One participant's column is left of another's exactly when it sorts first |
| Layout.Diagram | tcp_analyzer.py:173-207 | Arrow i goes from the column of packet i's source to the column of its destination, on row `len - i`. Rows lie in 1..len and strictly decrease |
| TcpAnalysis.KindTextInjective | tcp_analyzer.py:87-110 | The eleven labels have eleven different strings |
| TcpAnalysis.ClassifySyn | tcp_analyzer.py:89-90 | SYN exactly when `Flags [S]` occurs and `Flags [S.]` does not |
| TcpAnalysis.ClassifySynAck | tcp_analyzer.py:89-92 | SYN-ACK exactly when `Flags [S.]` occurs, or `Flags [SA]` occurs without `Flags [S]` |
| TcpAnalysis.ClassifyAck | tcp_analyzer.py:89-94 | ACK exactly when `Flags [.]` and `length 0` occur and no SYN flag text does |
| TcpAnalysis.ClassifyRst | tcp_analyzer.py:89-102 | RST exactly when `Flags [R]` occurs and none of the six earlier flag tests succeeds |
| TcpAnalysis.ClassifyData | tcp_analyzer.py:107-108 | A line that contains `length 0` is never DATA. A DATA line contains `length` |
| TcpAnalysis.FlagWords | tcp_analyzer.py:129-131 | The flags are empty exactly when there is no flags match or its body is all whitespace. No token is empty or holds whitespace or `]` |
| TcpAnalysis.ExtractDetails | tcp_analyzer.py:112-133 | `seq_num` and `ack_num` are None exactly when no `seq ` or `ack ` is followed by a digit. `flags` are the flag words |
| TcpAnalysis.ExtractDetailsSeq | tcp_analyzer.py:119-121 | `seq_num` is the decimal value of the digit run after the leftmost `seq ` that a digit follows, whether or not the line has an `ack` |
| TcpAnalysis.ExtractDetailsAck | tcp_analyzer.py:124-126 | `ack_num` is the decimal value of the digit run after the leftmost `ack ` that a digit follows, whether or not the line has a `seq` |
| TcpAnalysis.ExtractDetailsFlags | tcp_analyzer.py:129-131 | The flags are the words of the leftmost match's body, and together they hold its non-whitespace characters |
| TcpAnalysis.ParseTcpLine | tcp_analyzer.py:72 | A record has an HTTP port (80, 8080, 443 or 3000) at one end |
| TcpAnalysis.ParseTcpLineRecord | tcp_analyzer.py:68-82 | A record carries `classify_tcp_packet(line)`, the `seq`, `ack` and flags of `extract_tcp_details(line)`, and the stripped line |
| TcpAnalysis.ParseTcpLineOfMatch | tcp_analyzer.py:58-72 | With the leftmost address match, both port groups are digit runs, and the line is kept exactly when one matched port is 80, 8080, 443 or 3000. The record holds the matched IPs and the values of the port digits |
| TcpAnalysis.ParseTcpLineNoMatch | tcp_analyzer.py:58-60 | A line the address pattern (ending in `:`) does not match gives None |
| TcpAnalysis.BlankLineNotParsed | tcp_analyzer.py:41-44 | A blank line gives None |
| TcpAnalysis.BlankSkipIsRedundant | tcp_analyzer.py:40-46 | For the TCP parser, the loop's blank-line skip does not change the stored packets |
| TcpAnalysis.CountLabelPositive | tcp_analyzer.py:145-148 | A label's count is non-zero exactly when some packet carries that label |
| TcpAnalysis.LabelsCoverPackets | tcp_analyzer.py:145-148 | The counts of the eleven labels add up to the number of packets |
| TcpAnalysis.OccursOnce | tcp_analyzer.py:87-110 | Each label's string occurs once in the list of all labels |
| TcpAnalysis.FinLabels | tcp_analyzer.py:297 | `'FIN' in type` holds for FIN and FIN-ACK and for no other label |
| TcpAnalysis.LabelTests | tcp_analyzer.py:295-298 | Each phase test on a label string holds for exactly its labels: `== 'SYN'` for SYN, `== 'SYN-ACK'` for SYN-ACK, `'FIN' in` for FIN and FIN-ACK, and the list test for HTTP request, HTTP response and PSH-ACK |
| TcpAnalysis.Phases | tcp_analyzer.py:295-298 | The phase flags: `has_syn` means some packet is SYN, and `has_syn_ack` some packet is SYN-ACK. `has_fin` means some packet is FIN or FIN-ACK, and `has_data` some packet is an HTTP request, an HTTP response or PSH-ACK |
| TcpAnalysis.PhasesFromCounts | tcp_analyzer.py:295-298 | Each phase flag holds exactly when the histogram count of one of its labels is non-zero |
| TcpAnalysis.TcpAnalyzer.constructor | tcp_analyzer.py:21-24 | A new analyzer has its capture file name and no packets |
| TcpAnalysis.TcpAnalyzer.ParsePcap | tcp_analyzer.py:40-46 | The loop appends, after the earlier packets, the in-order parse results of the non-blank lines |
| TcpAnalysis.TcpAnalyzer.TypeCounts | tcp_analyzer.py:145-148 | The histogram (computed again at lines 256-259) has a key for exactly the labels some packet carries. Each value is that label's count, and the values add up to the number of packets |
| TcpAnalysis.TcpAnalyzer.SequenceLayout | tcp_analyzer.py:173-207 | The participants are the sorted, de-duplicated packet IPs. Arrow i runs from the column of packet i's source IP to that of its destination IP, on row `len - i` |
| DnsAnalysis.ParseDnsLine | udp_analyzer.py:54-79 | A record has port 53 at one end. It is a query exactly when the destination port is 53, so a 53→53 packet is a query. It keeps the line unstripped |
| DnsAnalysis.ParseDnsLineOfMatch | udp_analyzer.py:57-67 | With the leftmost address match (no trailing `:`), both port groups are digit runs, and the line is kept exactly when one matched port is 53. The record holds the matched IPs and the values of the port digits |
| DnsAnalysis.ParseDnsLineNoMatch | udp_analyzer.py:57-59 | A line the address pattern does not match gives None |
| DnsAnalysis.BlankLineNotParsed | udp_analyzer.py:40-43 | A blank line gives None |
| DnsAnalysis.BlankSkipIsRedundant | udp_analyzer.py:39-45 | For the DNS parser, the loop's blank-line skip does not change the stored packets |
| DnsAnalysis.Queries | udp_analyzer.py:90 | The queries list holds exactly the stored packets labelled query |
| DnsAnalysis.Responses | udp_analyzer.py:91 | The responses list holds exactly the stored packets labelled response |
| DnsAnalysis.QueriesAndResponsesCoverPackets | udp_analyzer.py:90-91 | `len(queries) + len(responses) == len(packets)` |
| DnsAnalysis.QueriesAndResponsesPartition | udp_analyzer.py:90-94 | The queries and the responses together hold each packet exactly as many times as the packet list does, so the counts printed and written are exact, repeated lines included |
| DnsAnalysis.UdpAnalyzer.constructor | udp_analyzer.py:21-23 | A new analyzer has its capture file name and no packets |
| DnsAnalysis.UdpAnalyzer.ParsePcap | udp_analyzer.py:39-45 | The loop appends, after the earlier packets, the in-order parse results of the non-blank lines |
| DnsAnalysis.UdpAnalyzer.SequenceLayout | udp_analyzer.py:115-135 | The participants are the sorted, de-duplicated packet IPs. Arrow i runs from the column of packet i's source IP to that of its destination IP, on row `len - i` |

## Left out

- Running `tcpdump` through `subprocess.run` is not modelled (`tcp_analyzer.py:26-38`, `udp_analyzer.py:25-37`): it is process I/O. This covers:
  - the return-code check;
  - the exception handler;
  - the boolean that `parse_pcap` returns;
  - the splitting of its output, `stdout.strip().split('\n')`.

  `ParsePcap` takes the lines as a parameter.
- All plotting with matplotlib is not modelled: it is drawing. This covers:
  - axes, arrow drawing, colours and legend;
  - text placement and the fractional label position `mid_x`;
  - `savefig`.

  Only the integer layout is modelled: the participants, their columns and the arrow rows.
- The console output of `analyze_connections` and `analyze_packets` is not modelled. Neither is the markdown writing of `generate_report`. Both are output only. One consequence lies outside the model: the report writes `seq`/`ack` only when they are truthy, so a value of 0 is not written.
- `main` and `argparse` are not modelled. The unused `pandas` and `datetime` imports are not either.
- The `connections` dictionary is not modelled: it is initialised and never used.
- Text.DecimalValue: gives a value for a digit run of any length. Python's `int()` raises `ValueError` on a decimal string longer than 4300 digits (the default `int_max_str_digits`). This is not modelled, because tcpdump prints no such number. The `int()` calls are at tcp_analyzer.py:63, 65, 121 and 126 and at udp_analyzer.py:62 and 64. In the source, a port, `seq` or `ack` of more than 4300 digits on an address-matched line raises in `parse_packet_line`, and this happens before the port test. The handler at tcp_analyzer.py:51-53 (udp_analyzer.py:50-52) then ends the line loop. The packets appended so far are kept, and `parse_pcap` returns False. In the model, `ParseTcpLine` and `ParseDnsLine` return a record or None for such a line, and `ParsePcap` goes on to the last line.
- Patterns.FindAddress: the regex class `\d` is modelled as the ASCII digits 0-9. Python's `\d` also matches other Unicode decimal digits, which `tcpdump -n` does not print.
- The order in which `list(set)` lists the participants is left unspecified. The sort that follows fixes it, and `Layout.SortedUnique` shows the result does not depend on it.
