/**
 * The integer layout of the sequence diagrams both analyzers draw: the
 * participants are the IP strings at either end of some packet, de-duplicated
 * and sorted; each participant stands at its index; packet `i` of `n` is drawn
 * as an arrow on row `n - i`, from its source's column to its destination's.
 * Each packet is given here by its pair (source IP, destination IP).
 */
module Layout {
  import opened Text

  /** One arrow of the diagram: the source and destination columns and the row. */
  datatype Arrow = Arrow(fromX: nat, toX: nat, row: nat)

  /** The packets' (source IP, destination IP) pairs, in order. */
  function Endpoints<P>(ps: seq<P>, src: P -> string, dst: P -> string): (ends: seq<(string, string)>)
    ensures |ends| == |ps|
    ensures forall i :: 0 <= i < |ps| ==> ends[i] == (src(ps[i]), dst(ps[i]))
  {
    seq(|ps|, i requires 0 <= i < |ps| => (src(ps[i]), dst(ps[i])))
  }

  /** The IP strings at either end of some packet. */
  function Ips(ends: seq<(string, string)>): set<string> {
    if ends == [] then {}
    else Ips(ends[..|ends| - 1]) + {ends[|ends| - 1].0, ends[|ends| - 1].1}
  }

  lemma {:induction false} IpsHasEnds(ends: seq<(string, string)>, i: nat)
    requires i < |ends|
    ensures ends[i].0 in Ips(ends) && ends[i].1 in Ips(ends)
    decreases |ends|
  {
    if i < |ends| - 1 {
      IpsHasEnds(ends[..|ends| - 1], i);
    }
  }

  lemma {:induction false} IpsAreEnds(ends: seq<(string, string)>, ip: string)
    requires ip in Ips(ends)
    ensures exists i :: 0 <= i < |ends| && (ends[i].0 == ip || ends[i].1 == ip)
    decreases |ends|
  {
    var front := ends[..|ends| - 1];
    if ip in Ips(front) {
      IpsAreEnds(front, ip);
      var i :| 0 <= i < |front| && (front[i].0 == ip || front[i].1 == ip);
      assert ends[i] == front[i];
    }
  }

  /** The IPs of the packets' endpoint pairs are exactly the IPs at either end of some packet. */
  lemma EndpointsIps<P>(ps: seq<P>, src: P -> string, dst: P -> string, ip: string)
    ensures ip in Ips(Endpoints(ps, src, dst)) <==> exists i :: 0 <= i < |ps| && (src(ps[i]) == ip || dst(ps[i]) == ip)
  {
    var ends := Endpoints(ps, src, dst);
    if ip in Ips(ends) {
      IpsAreEnds(ends, ip);
    }
    if exists i :: 0 <= i < |ps| && (src(ps[i]) == ip || dst(ps[i]) == ip) {
      var i :| 0 <= i < |ps| && (src(ps[i]) == ip || dst(ps[i]) == ip);
      IpsHasEnds(ends, i);
    }
  }

  /** Every element comes before every later one in Python's string order: sorted, no duplicates. */
  predicate StrictlySorted(ps: seq<string>) {
    forall i, j :: 0 <= i < j < |ps| ==> LexLess(ps[i], ps[j])
  }

  /** The least element of a non-empty set of strings. */
  method Least(s: set<string>) returns (m: string)
    requires s != {}
    ensures m in s
    ensures forall x :: x in s && x != m ==> LexLess(m, x)
  {
    m :| m in s;
    var rest := s - {m};
    while rest != {}
      invariant rest <= s && m in s && m !in rest
      invariant forall x :: x in s && x !in rest && x != m ==> LexLess(m, x)
      decreases rest
    {
      var x :| x in rest;
      LexLessTotal(x, m);
      if LexLess(x, m) {
        forall y | y in s && y !in rest && y != x ensures LexLess(x, y) {
          if y != m {
            LexLessTransitive(x, m, y);
          }
        }
        m := x;
      }
      rest := rest - {x};
    }
  }

  /** `list(s)` then `sort()`: the elements of `s`, each once, in increasing order. */
  method SortSet(s: set<string>) returns (ps: seq<string>)
    ensures StrictlySorted(ps)
    ensures forall x :: x in ps <==> x in s
  {
    ps := [];
    var rest := s;
    while rest != {}
      invariant rest <= s
      invariant StrictlySorted(ps)
      invariant forall x :: x in s <==> x in ps || x in rest
      invariant forall i, y :: 0 <= i < |ps| && y in rest ==> LexLess(ps[i], y)
      decreases rest
    {
      var m := Least(rest);
      ps := ps + [m];
      rest := rest - {m};
    }
  }

  /** Two strictly sorted sequences with the same elements are equal: the sorted participant list is determined. */
  lemma {:induction false} SortedUnique(a: seq<string>, b: seq<string>)
    requires StrictlySorted(a) && StrictlySorted(b)
    requires forall x :: x in a <==> x in b
    ensures a == b
    decreases |a|
  {
    if a != [] { assert a[0] in b; }
    if b != [] { assert b[0] in a; }
    if a != [] && b != [] {
      if a[0] != b[0] {
        assert b[0] in a;
        var i :| 0 <= i < |a| && a[i] == b[0];
        assert a[0] in b;
        var j :| 0 <= j < |b| && b[j] == a[0];
        assert LexLess(a[0], b[0]) by { assert i > 0; }
        assert LexLess(b[0], a[0]) by { assert j > 0; }
        LexLessAsymmetric(a[0], b[0]);
      }
      forall x ensures x in a[1..] <==> x in b[1..] {
        if x in a[1..] {
          var i :| 1 <= i < |a| && a[i] == x;
          assert x != a[0] by { LexLessIrreflexive(a[0]); }
          assert x in b;
          var j :| 0 <= j < |b| && b[j] == x;
          assert j != 0;
        }
        if x in b[1..] {
          var j :| 1 <= j < |b| && b[j] == x;
          assert x != b[0] by { LexLessIrreflexive(b[0]); }
          assert x in a;
          var i :| 0 <= i < |a| && a[i] == x;
          assert i != 0;
        }
      }
      SortedUnique(a[1..], b[1..]);
      assert a == [a[0]] + a[1..] && b == [b[0]] + b[1..];
    }
  }

  /** The participants: every IP at either end of a packet, sorted, each once. */
  method Participants(ends: seq<(string, string)>) returns (ps: seq<string>)
    ensures StrictlySorted(ps)
    ensures forall ip :: ip in ps <==> ip in Ips(ends)
  {
    var seen: set<string> := {};
    for i := 0 to |ends|
      invariant seen == Ips(ends[..i])
    {
      assert ends[..i + 1][..i] == ends[..i];
      seen := seen + {ends[i].0};
      seen := seen + {ends[i].1};
    }
    assert ends[..|ends|] == ends;
    ps := SortSet(seen);
  }

  /** `{ip: i for i, ip in enumerate(ps)}`: a later occurrence would overwrite an earlier one. */
  function Positions(ps: seq<string>): map<string, nat> {
    if ps == [] then map[] else Positions(ps[..|ps| - 1])[ps[|ps| - 1] := |ps| - 1]
  }

  /**
   * For a sorted participant list the positions are a bijection between the
   * participants and `0..|ps|-1`: each participant maps to its own index.
   */
  lemma {:induction false} PositionsOfSorted(ps: seq<string>)
    requires StrictlySorted(ps)
    ensures forall ip :: ip in Positions(ps) <==> ip in ps
    ensures forall i :: 0 <= i < |ps| ==> Positions(ps)[ps[i]] == i
    ensures forall ip :: ip in Positions(ps) ==> Positions(ps)[ip] < |ps| && ps[Positions(ps)[ip]] == ip
    decreases |ps|
  {
    if ps != [] {
      var front := ps[..|ps| - 1];
      var last := ps[|ps| - 1];
      assert StrictlySorted(front);
      PositionsOfSorted(front);
      var pos := Positions(ps);
      assert pos == Positions(front)[last := |ps| - 1];
      forall i | 0 <= i < |front| ensures front[i] != last {
        assert LexLess(ps[i], ps[|ps| - 1]);
        LexLessIrreflexive(last);
      }
      forall ip ensures ip in pos <==> ip in ps {
        if ip in ps {
          var i :| 0 <= i < |ps| && ps[i] == ip;
          if i < |ps| - 1 { assert front[i] == ip; }
        }
      }
      forall i | 0 <= i < |ps| ensures pos[ps[i]] == i {
        if i < |ps| - 1 { assert ps[i] == front[i]; }
      }
      forall ip | ip in pos ensures pos[ip] < |ps| && ps[pos[ip]] == ip {
        if ip != last { assert ps[pos[ip]] == front[pos[ip]]; }
      }
    }
  }

  /** Positions keep Python's string order: the column of `a` is left of `b`'s exactly when `a < b`. */
  lemma PositionsKeepOrder(ps: seq<string>, a: string, b: string)
    requires StrictlySorted(ps) && a in ps && b in ps
    ensures a in Positions(ps) && b in Positions(ps)
    ensures LexLess(a, b) <==> Positions(ps)[a] < Positions(ps)[b]
  {
    PositionsOfSorted(ps);
    var i, j := Positions(ps)[a], Positions(ps)[b];
    if LexLess(a, b) && j <= i {
      if j == i {
        LexLessIrreflexive(a);
      } else {
        LexLessAsymmetric(a, b);
      }
    }
  }

  /** Arrow `a` draws packet `j`: from its source's column to its destination's, on row `|ends| - j`. */
  predicate DrawnFor(ps: seq<string>, ends: seq<(string, string)>, j: nat, a: Arrow)
    requires j < |ends|
  {
    && a.fromX < |ps| && ps[a.fromX] == ends[j].0
    && a.toX < |ps| && ps[a.toX] == ends[j].1
    && a.row == |ends| - j
  }

  /**
   * The participants and the arrows: arrow `i` runs from the column of packet
   * `i`'s source to the column of its destination, on row `|ends| - i`, so the
   * rows run from `|ends|` down to 1 and the first packet is drawn on top.
   */
  method Diagram(ends: seq<(string, string)>) returns (ps: seq<string>, arrows: seq<Arrow>)
    ensures StrictlySorted(ps)
    ensures forall ip :: ip in ps <==> ip in Ips(ends)
    ensures |arrows| == |ends|
    ensures forall i :: 0 <= i < |ends| ==>
              && arrows[i].fromX < |ps| && ps[arrows[i].fromX] == ends[i].0
              && arrows[i].toX < |ps| && ps[arrows[i].toX] == ends[i].1
              && arrows[i].row == |ends| - i
    ensures forall i :: 0 <= i < |arrows| ==> 1 <= arrows[i].row <= |ends|
    ensures forall i, j :: 0 <= i < j < |arrows| ==> arrows[j].row < arrows[i].row
  {
    ps := Participants(ends);
    var pos := Positions(ps);
    PositionsOfSorted(ps);
    arrows := [];
    for i := 0 to |ends|
      invariant |arrows| == i
      invariant forall j :: 0 <= j < i ==> DrawnFor(ps, ends, j, arrows[j])
    {
      IpsHasEnds(ends, i);
      var arrow := Arrow(pos[ends[i].0], pos[ends[i].1], |ends| - i);
      assert DrawnFor(ps, ends, i, arrow);
      arrows := arrows + [arrow];
    }
  }
}
