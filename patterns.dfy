/**
 * The regular expressions of the two analyzers, as scanners over a line.
 *
 * Every `\d+` of the address pattern is followed either by a literal that is
 * not a digit or by the end of the pattern, where greed makes it as long as
 * possible; so at a given position the pattern matches in at most one way,
 * and a scanner that takes the longest digit run at each step finds it.
 * `re.search` reports the match at the least position (`FirstFrom`).
 */
module Patterns {
  import opened Wrappers
  import opened Text

  /** The least `j` with `k <= j <= n` at which `p` holds. */
  function FirstFrom(p: nat -> bool, k: nat, n: nat): (r: Option<nat>)
    ensures r.Some? ==> k <= r.value <= n && p(r.value)
    ensures r.Some? ==> forall j :: k <= j < r.value ==> !p(j)
    ensures r.None? ==> forall j :: k <= j <= n ==> !p(j)
    decreases n + 1 - k
  {
    if k > n then None else if p(k) then Some(k) else FirstFrom(p, k + 1, n)
  }

  /** The text of a group `(\d+)`: one or more digits. */
  predicate IsDigits(t: string) {
    t != [] && AllDigits(t)
  }

  predicate NotDigitAt(s: string, i: nat) {
    i >= |s| || !IsDigit(s[i])
  }

  /**
   * The regex `(\d+)sep0(\d+)sep1...` matches at `i` with groups `gs`: one or
   * more digits and the first separator, then a match of the rest of the
   * pattern at the position after them. A last group with nothing after it in
   * the pattern is as long as greed makes it: no digit follows it.
   */
  ghost predicate GroupsMatchAt(s: string, i: nat, seps: seq<string>, gs: seq<string>)
    decreases |seps|
  {
    && i <= |s|
    && |gs| == |seps|
    && (seps != [] ==>
          && IsDigits(gs[0])
          && IsPrefixAt(s, i, gs[0] + seps[0])
          && (|seps| == 1 && seps[0] == [] ==> NotDigitAt(s, i + |gs[0]|))
          && GroupsMatchAt(s, i + |gs[0]| + |seps[0]|, seps[1..], gs[1..]))
  }

  /** Every group of a match is one or more digits. */
  lemma {:induction false} MatchDigits(s: string, i: nat, seps: seq<string>, gs: seq<string>)
    requires GroupsMatchAt(s, i, seps, gs)
    ensures forall j :: 0 <= j < |gs| ==> IsDigits(gs[j])
    decreases |seps|
  {
    if seps != [] {
      MatchDigits(s, i + |gs[0]| + |seps[0]|, seps[1..], gs[1..]);
      forall j | 1 <= j < |gs| ensures IsDigits(gs[j]) {
        assert gs[j] == gs[1..][j - 1];
      }
    }
  }

  /** No separator begins with a digit, and only the last one may be empty. */
  predicate SeparatorsOk(seps: seq<string>) {
    forall j :: 0 <= j < |seps| ==> if seps[j] == [] then j == |seps| - 1 else !IsDigit(seps[j][0])
  }

  lemma SeparatorsOkTail(seps: seq<string>)
    requires seps != [] && SeparatorsOk(seps)
    ensures SeparatorsOk(seps[1..])
  {
    forall m | 0 <= m < |seps[1..]|
      ensures if seps[1..][m] == [] then m == |seps[1..]| - 1 else !IsDigit(seps[1..][m][0])
    {
      assert seps[1..][m] == seps[m + 1];
    }
  }

  /** Reads the longest digit run, then the next separator, group after group. */
  function ScanGroups(s: string, i: nat, seps: seq<string>): (r: Option<seq<string>>)
    requires i <= |s|
    ensures r.Some? ==> |r.value| == |seps|
    decreases |seps|
  {
    if seps == [] then Some([])
    else
      var n := Run(s, i, IsDigit);
      if n > 0 && IsPrefixAt(s, i + n, seps[0]) then
        match ScanGroups(s, i + n + |seps[0]|, seps[1..])
        case Some(rest) => Some([s[i..i + n]] + rest)
        case None => None
      else None
  }

  lemma PrefixAtConcat(s: string, i: nat, x: string, y: string)
    requires IsPrefixAt(s, i, x) && IsPrefixAt(s, i + |x|, y)
    ensures IsPrefixAt(s, i, x + y)
  {
    assert s[i..i + |x| + |y|] == s[i..i + |x|] + s[i + |x|..i + |x| + |y|];
  }

  lemma PrefixAtSplit(s: string, i: nat, x: string, y: string)
    requires IsPrefixAt(s, i, x + y)
    ensures IsPrefixAt(s, i, x) && IsPrefixAt(s, i + |x|, y)
  {
    assert s[i..i + |x|] == (x + y)[..|x|];
    assert s[i + |x|..i + |x| + |y|] == (x + y)[|x|..];
  }

  /** A scan that succeeds read a digit run and its separator, then scanned the rest from `j`. */
  lemma ScanGroupsHead(s: string, i: nat, seps: seq<string>, j: int)
    requires seps != [] && i <= |s| && ScanGroups(s, i, seps).Some?
    requires j == i + Run(s, i, IsDigit) + |seps[0]|
    ensures Run(s, i, IsDigit) > 0 && IsPrefixAt(s, i + Run(s, i, IsDigit), seps[0])
    ensures 0 <= j <= |s| && ScanGroups(s, j, seps[1..]).Some?
    ensures ScanGroups(s, i, seps).value == [s[i..i + Run(s, i, IsDigit)]] + ScanGroups(s, j, seps[1..]).value
  {
  }

  /** The longest digit run at `i` and its separator, followed by a match of the rest from `j`, is a match. */
  lemma MatchOfRun(s: string, i: nat, seps: seq<string>, gs: seq<string>, j: nat, rest: seq<string>)
    requires seps != [] && i <= |s|
    requires Run(s, i, IsDigit) > 0 && IsPrefixAt(s, i + Run(s, i, IsDigit), seps[0])
    requires j == i + Run(s, i, IsDigit) + |seps[0]| <= |s|
    requires gs == [s[i..i + Run(s, i, IsDigit)]] + rest
    requires GroupsMatchAt(s, j, seps[1..], rest)
    ensures GroupsMatchAt(s, i, seps, gs)
  {
    var n := Run(s, i, IsDigit);
    var g := s[i..i + n];
    assert IsDigits(g) by {
      forall m | 0 <= m < |g| ensures IsDigit(g[m]) {
        assert g[m] == s[i + m];
      }
    }
    assert IsPrefixAt(s, i, g + seps[0]) by {
      PrefixAtConcat(s, i, g, seps[0]);
    }
    assert gs[0] == g && gs[1..] == rest;
  }

  /** What the scanner returns is a match of the pattern. */
  lemma {:induction false} ScanGroupsSound(s: string, i: nat, seps: seq<string>)
    requires i <= |s|
    requires ScanGroups(s, i, seps).Some?
    ensures GroupsMatchAt(s, i, seps, ScanGroups(s, i, seps).value)
    decreases |seps|
  {
    if seps != [] {
      var j := i + Run(s, i, IsDigit) + |seps[0]|;
      ScanGroupsHead(s, i, seps, j);
      var rest := ScanGroups(s, j, seps[1..]).value;
      ScanGroupsSound(s, j, seps[1..]);
      MatchOfRun(s, i, seps, ScanGroups(s, i, seps).value, j, rest);
    }
  }

  /** One step of the scanner: a digit run, its separator, then the rest of the pattern. */
  lemma ScanGroupsUnfold(s: string, i: nat, seps: seq<string>, g: string, j: nat, rest: seq<string>)
    requires seps != [] && i <= |s|
    requires Run(s, i, IsDigit) > 0 && IsPrefixAt(s, i + Run(s, i, IsDigit), seps[0])
    requires j == i + Run(s, i, IsDigit) + |seps[0]| <= |s|
    requires ScanGroups(s, j, seps[1..]) == Some(rest)
    requires g == s[i..i + Run(s, i, IsDigit)]
    ensures ScanGroups(s, i, seps) == Some([g] + rest)
  {
  }

  /** In a match, the first group is the longest digit run at `i`, followed by its separator. */
  lemma MatchHead(s: string, i: nat, seps: seq<string>, gs: seq<string>)
    requires seps != [] && SeparatorsOk(seps) && GroupsMatchAt(s, i, seps, gs)
    ensures Run(s, i, IsDigit) == |gs[0]| > 0
    ensures i + Run(s, i, IsDigit) + |seps[0]| <= |s|
    ensures IsPrefixAt(s, i + Run(s, i, IsDigit), seps[0])
    ensures gs[0] == s[i..i + Run(s, i, IsDigit)]
    ensures GroupsMatchAt(s, i + |gs[0]| + |seps[0]|, seps[1..], gs[1..])
  {
    var g := gs[0];
    PrefixAtSplit(s, i, g, seps[0]);
    forall j | i <= j < i + |g| ensures IsDigit(s[j]) {
      assert s[j] == g[j - i];
    }
    if seps[0] != [] {
      assert s[i + |g|] == seps[0][0];
    }
    RunExact(s, i, |g|, IsDigit);
  }

  /** If the scanner finds the rest of a match, it finds the whole match. */
  lemma ScanGroupsStep(s: string, i: nat, seps: seq<string>, gs: seq<string>, j: nat, rest: seq<string>)
    requires seps != [] && SeparatorsOk(seps) && GroupsMatchAt(s, i, seps, gs)
    requires j == i + |gs[0]| + |seps[0]| && rest == gs[1..]
    requires j <= |s| && ScanGroups(s, j, seps[1..]) == Some(rest)
    ensures ScanGroups(s, i, seps) == Some(gs)
  {
    MatchHead(s, i, seps, gs);
    ScanGroupsUnfold(s, i, seps, gs[0], j, rest);
    assert [gs[0]] + rest == gs;
  }

  /** Every match of the pattern is what the scanner returns. */
  lemma {:induction false} ScanGroupsComplete(s: string, i: nat, seps: seq<string>, gs: seq<string>)
    requires i <= |s| && SeparatorsOk(seps) && GroupsMatchAt(s, i, seps, gs)
    ensures ScanGroups(s, i, seps) == Some(gs)
    decreases |seps|
  {
    if seps != [] {
      MatchHead(s, i, seps, gs);
      SeparatorsOkTail(seps);
      var j, rest := i + |gs[0]| + |seps[0]|, gs[1..];
      ScanGroupsComplete(s, j, seps[1..], rest);
      ScanGroupsStep(s, i, seps, gs, j, rest);
    }
  }

  /** Every group a successful scan returns is one or more digits. */
  lemma ScanGroupsDigits(s: string, i: nat, seps: seq<string>)
    requires i <= |s| && ScanGroups(s, i, seps).Some?
    ensures forall j :: 0 <= j < |ScanGroups(s, i, seps).value| ==> IsDigits(ScanGroups(s, i, seps).value[j])
  {
    ScanGroupsSound(s, i, seps);
    MatchDigits(s, i, seps, ScanGroups(s, i, seps).value);
  }

  /** At one position the pattern matches with at most one choice of groups. */
  lemma GroupsMatchUnique(s: string, i: nat, seps: seq<string>, gs: seq<string>, hs: seq<string>)
    requires SeparatorsOk(seps) && GroupsMatchAt(s, i, seps, gs) && GroupsMatchAt(s, i, seps, hs)
    ensures gs == hs
  {
    ScanGroupsComplete(s, i, seps, gs);
    ScanGroupsComplete(s, i, seps, hs);
  }

  // ---------------------------------------------------------------------------
  // The address pattern `(\d+\.\d+\.\d+\.\d+)\.(\d+) > (\d+\.\d+\.\d+\.\d+)\.(\d+)`

  /**
   * The separators after the ten digit groups of the address pattern: four
   * octets and a port on each side of ` > `. The TCP analyzer's pattern ends
   * in `:`, the UDP analyzer's pattern ends right after the last port.
   */
  function AddressSeps(colon: bool): (seps: seq<string>)
    ensures |seps| == 10 && SeparatorsOk(seps)
  {
    [".", ".", ".", ".", " > ", ".", ".", ".", ".", if colon then ":" else ""]
  }

  /** A match of the address pattern: where it starts and its ten digit groups. */
  datatype AddressMatch = AddressMatch(at: nat, groups: seq<string>)

  /** The text of group 1 or 3 of the address pattern: the four octet groups from `from` on, joined by dots. */
  function IpText(gs: seq<string>, from: nat): string
    requires from + 4 <= |gs|
  {
    gs[from] + "." + gs[from + 1] + "." + gs[from + 2] + "." + gs[from + 3]
  }

  function AddressAt(s: string, k: nat, colon: bool): Option<seq<string>> {
    if k <= |s| then ScanGroups(s, k, AddressSeps(colon)) else None
  }

  /** `re.search` of the address pattern over the whole line. */
  function FindAddress(s: string, colon: bool): (r: Option<AddressMatch>)
    ensures r.Some? ==> |r.value.groups| == 10 && forall j :: 0 <= j < 10 ==> IsDigits(r.value.groups[j])
  {
    match FirstFrom((k: nat) => AddressAt(s, k, colon).Some?, 0, |s|)
    case None => None
    case Some(k) =>
      ScanGroupsSound(s, k, AddressSeps(colon));
      MatchDigits(s, k, AddressSeps(colon), AddressAt(s, k, colon).value);
      Some(AddressMatch(k, AddressAt(s, k, colon).value))
  }

  /** The address pattern matches at `k` with groups `gs`, and at no earlier position. */
  ghost predicate LeftmostAddress(s: string, colon: bool, k: nat, gs: seq<string>) {
    && GroupsMatchAt(s, k, AddressSeps(colon), gs)
    && forall j: nat, hs :: j < k ==> !GroupsMatchAt(s, j, AddressSeps(colon), hs)
  }

  /** `FindAddress` reports exactly the leftmost match of the pattern, and None when it matches nowhere. */
  lemma FindAddressIsLeftmost(s: string, colon: bool)
    ensures FindAddress(s, colon).Some? ==>
              LeftmostAddress(s, colon, FindAddress(s, colon).value.at, FindAddress(s, colon).value.groups)
    ensures FindAddress(s, colon).None? ==>
              forall k: nat, gs :: !GroupsMatchAt(s, k, AddressSeps(colon), gs)
  {
    var seps := AddressSeps(colon);
    var p := (k: nat) => AddressAt(s, k, colon).Some?;
    var first := FirstFrom(p, 0, |s|);
    forall k: nat, gs | GroupsMatchAt(s, k, seps, gs) ensures p(k) && k <= |s| {
      ScanGroupsComplete(s, k, seps, gs);
    }
    if first.Some? {
      ScanGroupsSound(s, first.value, seps);
    }

  }

  /** A leftmost match determines what `FindAddress` returns. */
  lemma FindAddressOfLeftmost(s: string, colon: bool, k: nat, gs: seq<string>)
    requires LeftmostAddress(s, colon, k, gs)
    ensures FindAddress(s, colon) == Some(AddressMatch(k, gs))
  {
    FindAddressIsLeftmost(s, colon);
    var r := FindAddress(s, colon).value;
    GroupsMatchUnique(s, k, AddressSeps(colon), gs, r.groups);
  }

  /**
   * A pattern whose last separator is a literal that does not start with a
   * digit matches only where the same pattern without that literal matches:
   * the literal stops the last digit run just as greed does.
   */
  lemma {:induction false} DropLastSeparator(s: string, i: nat, pre: seq<string>, x: string, gs: seq<string>)
    requires x != [] && !IsDigit(x[0])
    requires GroupsMatchAt(s, i, pre + [x], gs)
    ensures GroupsMatchAt(s, i, pre + [[]], gs)
    decreases |pre|
  {
    var g := gs[0];
    if pre == [] {
      PrefixAtSplit(s, i, g, x);
      assert s[i + |g|] == x[0];
      assert g + [] == g;
    } else {
      assert (pre + [x])[1..] == pre[1..] + [x];
      assert (pre + [[]])[1..] == pre[1..] + [[]];
      DropLastSeparator(s, i + |g| + |pre[0]|, pre[1..], x, gs[1..]);
    }
  }

  /** Where the TCP analyzer's pattern (ending in `:`) matches, the UDP analyzer's pattern matches too. */
  lemma ColonMatchIsPlainMatch(s: string, k: nat, gs: seq<string>)
    requires GroupsMatchAt(s, k, AddressSeps(true), gs)
    ensures GroupsMatchAt(s, k, AddressSeps(false), gs)
  {
    var pre := AddressSeps(true)[..9];
    assert AddressSeps(true) == pre + [":"];
    assert AddressSeps(false) == pre + [[]];
    DropLastSeparator(s, k, pre, ":", gs);
  }

  /** So the UDP analyzer's search finds an address in every line the TCP analyzer's search does, no later. */
  lemma ColonSearchIsNoEarlier(s: string)
    requires FindAddress(s, true).Some?
    ensures FindAddress(s, false).Some? && FindAddress(s, false).value.at <= FindAddress(s, true).value.at
  {
    FindAddressIsLeftmost(s, true);
    FindAddressIsLeftmost(s, false);
    var r := FindAddress(s, true).value;
    ColonMatchIsPlainMatch(s, r.at, r.groups);
  }

  // ---------------------------------------------------------------------------
  // `seq (\d+)` and `ack (\d+)`

  /** `kw(\d+)` matches at `k`: `kw` occurs at `k` and a digit follows it. */
  predicate NumberAt(s: string, kw: string, k: nat) {
    IsPrefixAt(s, k, kw) && k + |kw| < |s| && IsDigit(s[k + |kw|])
  }

  /** The group `(\d+)` of a match at `k`: the longest digit run after `kw`. */
  function NumberDigits(s: string, kw: string, k: nat): (ds: string)
    requires NumberAt(s, kw, k)
    ensures IsDigits(ds) && IsPrefixAt(s, k + |kw|, ds) && NotDigitAt(s, k + |kw| + |ds|)
  {
    s[k + |kw|..k + |kw| + Run(s, k + |kw|, IsDigit)]
  }

  /** `re.search(kw + r'(\d+)', s)`, then `int()` of its group; None when there is no match. */
  function FindNumber(s: string, kw: string): (r: Option<nat>)
    ensures r.None? <==> forall k: nat :: !NumberAt(s, kw, k)
  {
    var p := (k: nat) => NumberAt(s, kw, k);
    assert forall k: nat :: p(k) == NumberAt(s, kw, k);
    match FirstFrom(p, 0, |s|)
    case Some(k) => Some(DecimalValue(NumberDigits(s, kw, k)))
    case None => None
  }

  /** The number found is the value of the digits of the leftmost match. */
  lemma FindNumberOfLeftmost(s: string, kw: string, k: nat)
    requires NumberAt(s, kw, k)
    requires forall j: nat :: j < k ==> !NumberAt(s, kw, j)
    ensures FindNumber(s, kw) == Some(DecimalValue(NumberDigits(s, kw, k)))
  {
    var p := (j: nat) => NumberAt(s, kw, j);
    assert p(k);
    assert forall j: nat :: p(j) == NumberAt(s, kw, j);
  }

  // ---------------------------------------------------------------------------
  // `Flags \[([^\]]+)\]`

  predicate NotCloseBracket(c: char) {
    c != ']'
  }

  /** The regex matches at `k` with group `body`: the text at `k` is `Flags [`, a non-empty body without `]`, then `]`. */
  ghost predicate FlagsMatchAt(s: string, k: nat, body: string) {
    body != [] && (forall j :: 0 <= j < |body| ==> body[j] != ']') && IsPrefixAt(s, k, "Flags [" + body + "]")
  }

  /** The scanner's test at `k`: `Flags [` then a non-empty run of non-`]` characters that a `]` ends. */
  predicate FlagsAt(s: string, k: nat) {
    IsPrefixAt(s, k, "Flags [") && var n := Run(s, k + 7, NotCloseBracket); n > 0 && k + 7 + n < |s|
  }

  function FlagsBody(s: string, k: nat): (body: string)
    requires FlagsAt(s, k)
    ensures FlagsMatchAt(s, k, body)
  {
    var body := s[k + 7..k + 7 + Run(s, k + 7, NotCloseBracket)];
    PrefixAtConcat(s, k, "Flags [", body);
    PrefixAtConcat(s, k, "Flags [" + body, "]");
    body
  }

  /** Every match of the regex at `k` is the one the scanner finds there. */
  lemma FlagsMatchIsScanned(s: string, k: nat, body: string)
    requires FlagsMatchAt(s, k, body)
    ensures FlagsAt(s, k) && FlagsBody(s, k) == body
  {
    PrefixAtSplit(s, k, "Flags [" + body, "]");
    PrefixAtSplit(s, k, "Flags [", body);
    forall j | k + 7 <= j < k + 7 + |body| ensures NotCloseBracket(s[j]) {
      assert s[j] == body[j - k - 7];
    }
    RunExact(s, k + 7, |body|, NotCloseBracket);
  }

  /** `re.search(r'Flags \[([^\]]+)\]', s)`: the group of the leftmost match, or None. */
  function FindFlags(s: string): (r: Option<string>)
    ensures r.None? <==> forall k: nat :: !FlagsAt(s, k)
    ensures r.Some? ==> r.value != [] && forall j :: 0 <= j < |r.value| ==> r.value[j] != ']'
  {
    var p := (k: nat) => FlagsAt(s, k);
    assert forall k: nat :: p(k) == FlagsAt(s, k);
    match FirstFrom(p, 0, |s|)
    case Some(k) => Some(FlagsBody(s, k))
    case None => None
  }

  /** The body found is the group of the leftmost match. */
  lemma FindFlagsOfLeftmost(s: string, k: nat, body: string)
    requires FlagsMatchAt(s, k, body)
    requires forall j: nat, b :: j < k ==> !FlagsMatchAt(s, j, b)
    ensures FindFlags(s) == Some(body)
  {
    FlagsMatchIsScanned(s, k, body);
    var p := (j: nat) => FlagsAt(s, j);
    assert p(k);
    assert forall j: nat :: p(j) == FlagsAt(s, j);
    var first := FirstFrom(p, 0, |s|);
    assert first.Some? && first.value <= k;
    var f := first.value;
    assert FlagsMatchAt(s, f, FlagsBody(s, f));
    assert f == k;
  }
}
