/**
 * The line loop of `parse_pcap`, shared by both analyzers: a line that
 * `strip()` empties is skipped, every other line goes to the analyzer's
 * `parse_packet_line`, and each record it returns is appended, in input order.
 */
module Capture {
  import opened Wrappers
  import opened Text

  /** The records that the loop appends for `lines`, in order. */
  function Collect<P>(lines: seq<string>, parse: string -> Option<P>): seq<P> {
    if lines == [] then []
    else
      var rest := Collect(lines[..|lines| - 1], parse);
      var line := lines[|lines| - 1];
      if Strip(line) == [] then rest
      else
        match parse(line)
        case Some(p) => rest + [p]
        case None => rest
  }

  /** One more turn of the loop: line `i` is skipped, dropped or appended. */
  lemma CollectStep<P>(lines: seq<string>, i: nat, parse: string -> Option<P>)
    requires i < |lines|
    ensures Collect(lines[..i + 1], parse) ==
              if Strip(lines[i]) == [] || parse(lines[i]).None? then Collect(lines[..i], parse)
              else Collect(lines[..i], parse) + [parse(lines[i]).value]
  {
    assert lines[..i + 1][..i] == lines[..i];
  }

  /**
   * The loop itself: for each line, skip it when `strip()` empties it,
   * otherwise parse it and keep the record when there is one.
   */
  method ParseLines<P>(lines: seq<string>, parse: string -> Option<P>) returns (found: seq<P>)
    ensures found == Collect(lines, parse)
  {
    found := [];
    for i := 0 to |lines|
      invariant found == Collect(lines[..i], parse)
    {
      CollectStep(lines, i, parse);
      var line := lines[i];
      if Strip(line) == [] {
        continue;
      }
      var info := parse(line);
      if info.Some? {
        found := found + [info.value];
      }
    }
    assert lines[..|lines|] == lines;
  }

  /** How many of the lines are not blank. */
  function NonBlankCount(lines: seq<string>): nat {
    if lines == [] then 0
    else NonBlankCount(lines[..|lines| - 1]) + if IsBlank(lines[|lines| - 1]) then 0 else 1
  }

  /** Running the loop over two batches of lines in turn appends what one run over both would. */
  lemma {:induction false} CollectAppend<P>(a: seq<string>, b: seq<string>, parse: string -> Option<P>)
    ensures Collect(a + b, parse) == Collect(a, parse) + Collect(b, parse)
    decreases |b|
  {
    if b == [] {
      assert a + b == a;
    } else {
      var b' := b[..|b| - 1];
      assert (a + b)[..|a + b| - 1] == a + b';
      assert (a + b)[|a + b| - 1] == b[|b| - 1];
      CollectAppend(a, b', parse);
    }
  }

  /** At most one record per non-blank line. */
  lemma {:induction false} CollectBound<P>(lines: seq<string>, parse: string -> Option<P>)
    ensures |Collect(lines, parse)| <= NonBlankCount(lines)
    decreases |lines|
  {
    if lines != [] {
      CollectBound(lines[..|lines| - 1], parse);
    }
  }

  /** Every record stored was returned by the parser for some non-blank line. */
  lemma {:induction false} CollectOrigin<P>(lines: seq<string>, parse: string -> Option<P>, j: nat)
    requires j < |Collect(lines, parse)|
    ensures exists i :: 0 <= i < |lines| && !IsBlank(lines[i]) && parse(lines[i]) == Some(Collect(lines, parse)[j])
    decreases |lines|
  {
    var front := lines[..|lines| - 1];
    var rest := Collect(front, parse);
    if j < |rest| {
      CollectOrigin(front, parse, j);
      var i :| 0 <= i < |front| && !IsBlank(front[i]) && parse(front[i]) == Some(rest[j]);
      assert lines[i] == front[i];
    } else {
      assert !IsBlank(lines[|lines| - 1]);
    }
  }

  /** The parse results of all lines, without the blank-line test. */
  function ParseAll<P>(lines: seq<string>, parse: string -> Option<P>): seq<P> {
    if lines == [] then []
    else
      var rest := ParseAll(lines[..|lines| - 1], parse);
      match parse(lines[|lines| - 1])
      case Some(p) => rest + [p]
      case None => rest
  }

  /** For a parser that rejects every blank line, skipping blank lines changes nothing. */
  lemma {:induction false} CollectSkipIsRedundant<P>(lines: seq<string>, parse: string -> Option<P>)
    requires forall line :: IsBlank(line) ==> parse(line).None?
    ensures Collect(lines, parse) == ParseAll(lines, parse)
    decreases |lines|
  {
    if lines != [] {
      CollectSkipIsRedundant(lines[..|lines| - 1], parse);
    }
  }
}
