/**
 * From a satisfying assignment to a placement. With n components and n
 * positions per side, "every component is placed" together with "no position
 * holds two components" forces exactly one component on every position, so
 * the positions carry a permutation of the components on each side. The
 * decoder then reads that permutation back, and the matrix's connections
 * under it are exactly the wires, none of which cross.
 */
module Placement {
  import opened Variables
  import opened Clauses
  import opened Encoding
  import opened Semantics
  import opened Decoding

  // ---------------------------------------------------------------------
  // The pigeonhole principle for indices.

  predicate Distinct(s: seq<int>) {
    forall i, j :: 0 <= i < j < |s| ==> s[i] != s[j]
  }

  predicate Below(s: seq<int>, n: int) {
    forall i :: 0 <= i < |s| ==> 0 <= s[i] < n
  }

  /** Closes the gap a missing value v leaves: every entry above v moves down one. */
  function Squeeze(s: seq<int>, v: int): (r: seq<int>)
    ensures |r| == |s|
  {
    seq(|s|, i requires 0 <= i < |s| => if s[i] > v then s[i] - 1 else s[i])
  }

  lemma SqueezeDistinct(s: seq<int>, v: int, n: int)
    requires Distinct(s) && Below(s, n) && 0 <= v < n
    requires forall i :: 0 <= i < |s| ==> s[i] != v
    ensures Distinct(Squeeze(s, v)) && Below(Squeeze(s, v), n - 1)
  {
  }

  /** Different indices below n are at most n in number. */
  lemma {:induction false} Pigeonhole(s: seq<int>, n: nat)
    requires Distinct(s) && Below(s, n)
    ensures |s| <= n
    decreases |s|
  {
    if s != [] {
      var init, last := s[..|s| - 1], s[|s| - 1];
      assert forall i :: 0 <= i < |init| ==> init[i] == s[i] && init[i] != last;
      SqueezeDistinct(init, last, n);
      Pigeonhole(Squeeze(init, last), n - 1);
    }
  }

  /** n different indices below n are all of them. */
  lemma DistinctCovers(s: seq<int>, n: int)
    requires |s| == n && Distinct(s) && Below(s, n)
    ensures forall x :: 0 <= x < n ==> x in s
  {
    forall x | 0 <= x < n ensures x in s {
      if x !in s {
        SqueezeDistinct(s, x, n);
        Pigeonhole(Squeeze(s, x), n - 1);
      }
    }
  }

  // ---------------------------------------------------------------------
  // Placements.

  predicate OnSide(p: Predicate, truth: set<int>, kind: Kind, comp: int, pos: int)
    requires Side(kind) && p.Index(comp) && p.Index(pos)
  {
    SideVar(p, kind, comp, pos) in truth
  }

  /** comp holds some position of the side. */
  predicate Placed(p: Predicate, truth: set<int>, kind: Kind, comp: int)
    requires Side(kind) && p.Index(comp)
  {
    exists pos :: 0 <= pos < p.n && OnSide(p, truth, kind, comp, pos)
  }

  /** Some component holds position pos of the side. */
  predicate Occupied(p: Predicate, truth: set<int>, kind: Kind, pos: int)
    requires Side(kind) && p.Index(pos)
  {
    exists comp :: 0 <= comp < p.n && OnSide(p, truth, kind, comp, pos)
  }

  predicate AllPlaced(p: Predicate, truth: set<int>, kind: Kind)
    requires Side(kind)
  {
    forall comp :: 0 <= comp < p.n ==> Placed(p, truth, kind, comp)
  }

  predicate AtMostOne(p: Predicate, truth: set<int>, kind: Kind)
    requires Side(kind)
  {
    forall pos, comp1, comp2 ::
      0 <= pos < p.n && 0 <= comp1 < p.n && 0 <= comp2 < p.n &&
      OnSide(p, truth, kind, comp1, pos) && OnSide(p, truth, kind, comp2, pos)
      ==> comp1 == comp2
  }

  /** Some position of the side that holds comp. */
  ghost function PositionOf(p: Predicate, truth: set<int>, kind: Kind, comp: int): (pos: int)
    requires Side(kind) && p.Index(comp) && Placed(p, truth, kind, comp)
    ensures p.Index(pos) && OnSide(p, truth, kind, comp, pos)
  {
    var pos :| 0 <= pos < p.n && OnSide(p, truth, kind, comp, pos); pos
  }

  /** A component that holds position pos of the side. */
  ghost function Occupant(p: Predicate, truth: set<int>, kind: Kind, pos: int): (comp: int)
    requires Side(kind) && p.Index(pos) && Occupied(p, truth, kind, pos)
    ensures p.Index(comp) && OnSide(p, truth, kind, comp, pos)
  {
    var comp :| 0 <= comp < p.n && OnSide(p, truth, kind, comp, pos); comp
  }

  /** sel[pos] is the one component at position pos, and sel is a permutation of the components. */
  predicate Arrangement(p: Predicate, truth: set<int>, kind: Kind, sel: seq<int>)
    requires Side(kind)
  {
    |sel| == p.n &&
    (forall pos :: 0 <= pos < p.n ==> p.Index(sel[pos])) &&
    (forall pos, comp :: 0 <= pos < p.n && 0 <= comp < p.n ==> (OnSide(p, truth, kind, comp, pos) <==> comp == sel[pos])) &&
    Distinct(sel)
  }

  /** The side's choice of one position for each component. */
  ghost function Positions(p: Predicate, truth: set<int>, kind: Kind): (where: seq<int>)
    requires Side(kind) && AllPlaced(p, truth, kind)
    ensures |where| == p.n
    ensures forall comp :: 0 <= comp < p.n ==> p.Index(where[comp]) && OnSide(p, truth, kind, comp, where[comp])
  {
    seq(p.n, comp requires 0 <= comp < p.n => PositionOf(p, truth, kind, comp))
  }

  /**
   * The pigeonhole step: with every component on some position and no
   * position holding two, the chosen positions are all the positions.
   */
  lemma AllOccupied(p: Predicate, truth: set<int>, kind: Kind)
    requires Side(kind) && AllPlaced(p, truth, kind) && AtMostOne(p, truth, kind)
    ensures forall pos :: 0 <= pos < p.n ==> pos in Positions(p, truth, kind)
  {
    var where := Positions(p, truth, kind);
    assert Distinct(where) by {
      forall i, j | 0 <= i < j < p.n ensures where[i] != where[j] {
        assert OnSide(p, truth, kind, i, where[i]) && OnSide(p, truth, kind, j, where[j]);
      }
    }
    DistinctCovers(where, p.n);
  }

  /** The side is then an arrangement: one component per position, each component once. */
  lemma SideArrangement(p: Predicate, truth: set<int>, kind: Kind) returns (sel: seq<int>)
    requires Side(kind) && AllPlaced(p, truth, kind) && AtMostOne(p, truth, kind)
    ensures Arrangement(p, truth, kind, sel)
  {
    var where := Positions(p, truth, kind);
    AllOccupied(p, truth, kind);
    forall pos | 0 <= pos < p.n ensures Occupied(p, truth, kind, pos) {
      assert pos in where;
      var comp :| 0 <= comp < p.n && where[comp] == pos;
      assert OnSide(p, truth, kind, comp, pos);
    }
    sel := seq(p.n, pos requires 0 <= pos < p.n => Occupant(p, truth, kind, pos));
    // A component sits only at its chosen position: any other position is
    // chosen by some other component, which would then share it.
    forall comp, pos | 0 <= comp < p.n && 0 <= pos < p.n && OnSide(p, truth, kind, comp, pos)
      ensures where[comp] == pos
    {
      assert pos in where;
      var other :| 0 <= other < p.n && where[other] == pos;
      assert OnSide(p, truth, kind, other, pos);
    }
    forall i, j | 0 <= i < j < p.n ensures sel[i] != sel[j] {
      assert OnSide(p, truth, kind, sel[i], i) && OnSide(p, truth, kind, sel[j], j);
    }
  }

  /** Existence and uniqueness give both sides' premises. */
  lemma SidesPlaced(p: Predicate, truth: set<int>)
    requires EveryComponentPlaced(p, truth) && AtMostOnePerPosition(p, truth)
    ensures AllPlaced(p, truth, Left) && AtMostOne(p, truth, Left)
    ensures AllPlaced(p, truth, Right) && AtMostOne(p, truth, Right)
  {
    forall comp | 0 <= comp < p.n ensures Placed(p, truth, Left, comp) && Placed(p, truth, Right, comp) {
      assert PlacedLeft(p, truth, comp) && PlacedRight(p, truth, comp);
      var lpos :| 0 <= lpos < p.n && p.L(comp, lpos) in truth;
      var rpos :| 0 <= rpos < p.n && p.R(comp, rpos) in truth;
      assert OnSide(p, truth, Left, comp, lpos) && OnSide(p, truth, Right, comp, rpos);
    }
    forall pos, comp1, comp2 | 0 <= pos < p.n && 0 <= comp1 < p.n && 0 <= comp2 < p.n && comp1 != comp2
      ensures !(OnSide(p, truth, Left, comp1, pos) && OnSide(p, truth, Left, comp2, pos))
      ensures !(OnSide(p, truth, Right, comp1, pos) && OnSide(p, truth, Right, comp2, pos))
    {
      assert Apart(p, truth, pos, comp1, comp2);
    }
  }

  /** The variables true in a solver's answer: its positive literals. */
  function TruthOf(lits: seq<int>): (truth: set<int>)
    ensures forall x :: x in truth <==> x in lits && x > 0
  {
    set x | x in lits && x > 0
  }

  /**
   * A satisfying assignment of the whole encoding arranges each side as a
   * permutation of the components, and the decoder reads those permutations
   * back, position by position.
   */
  lemma SolutionDecodes(p: Predicate, m: Matrix, lits: seq<int>) returns (lc: seq<int>, rc: seq<int>)
    requires |m| == p.n && Binary(m) && p.n > 0
    requires SatAll(TruthOf(lits), Encoded(p, m))
    ensures Arrangement(p, TruthOf(lits), Left, lc) && Arrangement(p, TruthOf(lits), Right, rc)
    ensures Pairing(p, lits) == Ok(seq(p.n, k requires 0 <= k < p.n => [lc[k] + 1, rc[k] + 1]))
  {
    var truth := TruthOf(lits);
    SatEncoded(p, m, truth);
    SidesPlaced(p, truth);
    lc := SideArrangement(p, truth, Left);
    rc := SideArrangement(p, truth, Right);
    forall pos, comp | 0 <= pos < p.n && 0 <= comp < p.n
      ensures (p.L(comp, pos) in lits <==> comp == lc[pos]) && (p.R(comp, pos) in lits <==> comp == rc[pos])
    {
      assert OnSide(p, truth, Left, comp, pos) <==> comp == lc[pos];
      assert OnSide(p, truth, Right, comp, pos) <==> comp == rc[pos];
    }
    assert OnSide(p, truth, Left, lc[0], 0);
    DecodeOnePerPosition(p, lits, lc, rc);
  }

  /**
   * Under the arrangements of a satisfying assignment, the wires drawn are
   * exactly the matrix's connections between the components placed at
   * their ends, and no two of them cross.
   */
  lemma SolutionWires(p: Predicate, m: Matrix, truth: set<int>, lc: seq<int>, rc: seq<int>)
    requires |m| == p.n && Binary(m)
    requires SatAll(truth, Encoded(p, m))
    requires Arrangement(p, truth, Left, lc) && Arrangement(p, truth, Right, rc)
    ensures forall pos1, pos2 :: 0 <= pos1 < p.n && 0 <= pos2 < p.n ==>
      (p.W(pos1, pos2) in truth <==> Linked(m, lc[pos1], rc[pos2]))
    ensures forall left1, left2, right2, right1 :: 0 <= left1 < left2 < p.n && 0 <= right2 < right1 < p.n ==>
      !(Linked(m, lc[left1], rc[right1]) && Linked(m, lc[left2], rc[right2]))
  {
    SatEncoded(p, m, truth);
    forall pos1, pos2 | 0 <= pos1 < p.n && 0 <= pos2 < p.n
      ensures p.W(pos1, pos2) in truth <==> Linked(m, lc[pos1], rc[pos2])
    {
      assert OnSide(p, truth, Left, lc[pos1], pos1) && OnSide(p, truth, Right, rc[pos2], pos2);
      assert WiredIffConnected(p, truth, lc[pos1], rc[pos2], pos1, pos2);
    }
    forall left1, left2, right2, right1 | 0 <= left1 < left2 < p.n && 0 <= right2 < right1 < p.n
      ensures !(Linked(m, lc[left1], rc[right1]) && Linked(m, lc[left2], rc[right2]))
    {
      assert Uncrossed(p, truth, left1, left2, right2, right1);
    }
  }
}
