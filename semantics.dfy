/**
 * What each clause family says about a truth assignment. For each family,
 * an assignment satisfies all of its clauses exactly when the property the
 * family is meant to enforce holds of it.
 */
module Semantics {
  import opened Variables
  import opened Clauses
  import opened Encoding

  // ---------------------------------------------------------------------
  // The intended properties.

  /** The matrix connects left component i to right component j. */
  predicate Linked(m: Matrix, i: int, j: int) {
    0 <= i < |m| && 0 <= j < |m[i]| && m[i][j] == 1
  }

  /** c(i, j) is true exactly where the matrix has a 1. */
  predicate FixesMatrix(p: Predicate, m: Matrix, truth: set<int>) {
    forall i, j :: 0 <= i < p.n && 0 <= j < p.n ==> (p.C(i, j) in truth <==> Linked(m, i, j))
  }

  predicate PlacedLeft(p: Predicate, truth: set<int>, comp: int)
    requires p.Index(comp)
  {
    exists pos :: 0 <= pos < p.n && p.L(comp, pos) in truth
  }

  predicate PlacedRight(p: Predicate, truth: set<int>, comp: int)
    requires p.Index(comp)
  {
    exists pos :: 0 <= pos < p.n && p.R(comp, pos) in truth
  }

  /** Every component holds at least one left and at least one right position. */
  predicate EveryComponentPlaced(p: Predicate, truth: set<int>) {
    forall comp :: 0 <= comp < p.n ==> PlacedLeft(p, truth, comp) && PlacedRight(p, truth, comp)
  }

  /** Components comp1 and comp2 do not share position pos on either side. */
  predicate Apart(p: Predicate, truth: set<int>, pos: int, comp1: int, comp2: int)
    requires p.Index(pos) && p.Index(comp1) && p.Index(comp2)
  {
    !(p.L(comp1, pos) in truth && p.L(comp2, pos) in truth) &&
    !(p.R(comp1, pos) in truth && p.R(comp2, pos) in truth)
  }

  /** No position, left or right, holds two different components. */
  predicate AtMostOnePerPosition(p: Predicate, truth: set<int>) {
    forall pos, comp1, comp2 :: 0 <= pos < p.n && 0 <= comp1 < p.n && 0 <= comp2 < p.n && comp1 != comp2 ==>
      Apart(p, truth, pos, comp1, comp2)
  }

  /** With comp1 at left position pos1 and comp2 at right position pos2, the wire exists iff they are connected. */
  predicate WiredIffConnected(p: Predicate, truth: set<int>, comp1: int, comp2: int, pos1: int, pos2: int)
    requires p.Index(comp1) && p.Index(comp2) && p.Index(pos1) && p.Index(pos2)
  {
    p.L(comp1, pos1) in truth && p.R(comp2, pos2) in truth ==> (p.W(pos1, pos2) in truth <==> p.C(comp1, comp2) in truth)
  }

  predicate WiresFollowConnections(p: Predicate, truth: set<int>) {
    forall comp1, comp2, pos1, pos2 ::
      0 <= comp1 < p.n && 0 <= comp2 < p.n && 0 <= pos1 < p.n && 0 <= pos2 < p.n ==>
        WiredIffConnected(p, truth, comp1, comp2, pos1, pos2)
  }

  /** The wires (left1, right1) and (left2, right2) are not both drawn. */
  predicate Uncrossed(p: Predicate, truth: set<int>, left1: int, left2: int, right2: int, right1: int)
    requires p.Index(left1) && p.Index(left2) && p.Index(right2) && p.Index(right1)
  {
    !(p.W(left1, right1) in truth && p.W(left2, right2) in truth)
  }

  /** No two drawn wires cross: left1 < left2 with right2 < right1 never happens. */
  predicate NoWiresCross(p: Predicate, truth: set<int>) {
    forall left1, left2, right2, right1 ::
      0 <= left1 < left2 < p.n && 0 <= right2 < right1 < p.n ==> Uncrossed(p, truth, left1, left2, right2, right1)
  }

  // ---------------------------------------------------------------------
  // Singleton.

  /** Row i of the c variables agrees with the matrix in columns 0 .. j-1. */
  predicate RowFixed(p: Predicate, m: Matrix, truth: set<int>, i: int, j: int)
    requires p.Index(i) && j <= p.n
  {
    forall b :: 0 <= b < j ==> (p.C(i, b) in truth <==> Linked(m, i, b))
  }

  /** Rows 0 .. i-1 of the c variables agree with the matrix. */
  predicate RowsFixed(p: Predicate, m: Matrix, truth: set<int>, i: int)
    requires i <= p.n
  {
    forall a :: 0 <= a < i ==> RowFixed(p, m, truth, a, p.n)
  }

  lemma {:induction false} SatSingleton2(p: Predicate, m: Matrix, truth: set<int>, i: nat, j: nat)
    requires |m| == p.n && p.Index(i) && j <= p.n
    requires forall b :: 0 <= b < j ==> ValidEntry(m, i, b)
    ensures SatAll(truth, Singleton2(p, m, i, j)) <==> RowFixed(p, m, truth, i, j)
  {
    if j > 0 {
      SatSingleton2(p, m, truth, i, j - 1);
      SatAllAppend(truth, Singleton2(p, m, i, j - 1), [SingletonClause(p, m, i, j - 1)]);
      SatAllSingle(truth, SingletonClause(p, m, i, j - 1));
      SatUnit(truth, p.C(i, j - 1));
    }
  }

  lemma {:induction false} SatSingleton1(p: Predicate, m: Matrix, truth: set<int>, i: nat)
    requires |m| == p.n && i <= p.n
    requires forall a, b :: 0 <= a < i && 0 <= b < p.n ==> ValidEntry(m, a, b)
    ensures SatAll(truth, Singleton1(p, m, i)) <==> RowsFixed(p, m, truth, i)
  {
    if i > 0 {
      SatSingleton1(p, m, truth, i - 1);
      SatSingleton2(p, m, truth, i - 1, p.n);
      RowsFixedSplit(p, m, truth, i);
      SatAllJoin(truth, Singleton1(p, m, i), Singleton1(p, m, i - 1), Singleton2(p, m, i - 1, p.n),
                 RowsFixed(p, m, truth, i), RowsFixed(p, m, truth, i - 1), RowFixed(p, m, truth, i - 1, p.n));
    }
  }

  lemma RowsFixedSplit(p: Predicate, m: Matrix, truth: set<int>, i: nat)
    requires 0 < i <= p.n
    ensures RowsFixed(p, m, truth, i) <==> RowsFixed(p, m, truth, i - 1) && RowFixed(p, m, truth, i - 1, p.n)
  {
  }

  /** The singleton clauses hold exactly when every c variable equals its matrix entry. */
  lemma SatSingleton(p: Predicate, m: Matrix, truth: set<int>)
    requires |m| == p.n && Binary(m)
    ensures SatAll(truth, Singleton(p, m)) <==> FixesMatrix(p, m, truth)
  {
    SatSingleton1(p, m, truth, p.n);
    if FixesMatrix(p, m, truth) {
      forall a | 0 <= a < p.n ensures RowFixed(p, m, truth, a, p.n) {
      }
      assert RowsFixed(p, m, truth, p.n);
    }
    if RowsFixed(p, m, truth, p.n) {
      forall i, j | 0 <= i < p.n && 0 <= j < p.n ensures p.C(i, j) in truth <==> Linked(m, i, j) {
        assert RowFixed(p, m, truth, i, p.n);
      }
    }
  }

  // ---------------------------------------------------------------------
  // Existence.

  lemma SatExistenceClauses(p: Predicate, truth: set<int>, comp: int)
    requires p.Index(comp)
    ensures SatClause(truth, LeftExistence(p, comp)) <==> PlacedLeft(p, truth, comp)
    ensures SatClause(truth, RightExistence(p, comp)) <==> PlacedRight(p, truth, comp)
  {
    var left, right := LeftExistence(p, comp), RightExistence(p, comp);
    if PlacedLeft(p, truth, comp) {
      var pos :| 0 <= pos < p.n && p.L(comp, pos) in truth;
      assert SatLit(truth, left[pos]);
    }
    if PlacedRight(p, truth, comp) {
      var pos :| 0 <= pos < p.n && p.R(comp, pos) in truth;
      assert SatLit(truth, right[pos]);
    }
    if SatClause(truth, left) {
      var pos :| 0 <= pos < |left| && SatLit(truth, left[pos]);
      assert p.L(comp, pos) in truth;
    }
    if SatClause(truth, right) {
      var pos :| 0 <= pos < |right| && SatLit(truth, right[pos]);
      assert p.R(comp, pos) in truth;
    }
  }

  lemma {:induction false} SatExistence1(p: Predicate, truth: set<int>, k: nat)
    requires k <= p.n
    ensures SatAll(truth, Existence1(p, k)) <==>
              forall comp :: 0 <= comp < k ==> PlacedLeft(p, truth, comp) && PlacedRight(p, truth, comp)
  {
    if k > 0 {
      var last := [LeftExistence(p, k - 1), RightExistence(p, k - 1)];
      SatExistence1(p, truth, k - 1);
      SatAllAppend(truth, Existence1(p, k - 1), last);
      SatExistenceClauses(p, truth, k - 1);
      assert SatAll(truth, last) <==> SatClause(truth, last[0]) && SatClause(truth, last[1]);
    }
  }

  /** The existence clauses hold exactly when each component has a left and a right position. */
  lemma SatExistence(p: Predicate, truth: set<int>)
    ensures SatAll(truth, Existence(p)) <==> EveryComponentPlaced(p, truth)
  {
    SatExistence1(p, truth, p.n);
  }

  // ---------------------------------------------------------------------
  // Uniqueness.

  lemma SatUniquenessPair(p: Predicate, truth: set<int>, pos: int, comp1: int, comp2: int)
    requires p.Index(pos) && p.Index(comp1) && p.Index(comp2)
    ensures SatAll(truth, UniquenessPair(p, pos, comp1, comp2)) <==> Apart(p, truth, pos, comp1, comp2)
  {
    var pair := UniquenessPair(p, pos, comp1, comp2);
    SatBinary(truth, p.L(comp1, pos), p.L(comp2, pos));
    SatBinary(truth, p.R(comp1, pos), p.R(comp2, pos));
    assert SatAll(truth, pair) <==> SatClause(truth, pair[0]) && SatClause(truth, pair[1]);
  }

  /** comp1 shares position pos with none of the components comp1+1 .. k-1. */
  predicate ApartAbove(p: Predicate, truth: set<int>, pos: int, comp1: int, k: int)
    requires p.Index(pos) && p.Index(comp1) && k <= p.n
  {
    forall comp2 :: comp1 < comp2 < k ==> Apart(p, truth, pos, comp1, comp2)
  }

  /** No two of the components, the smaller one below k, share position pos. */
  predicate PositionUnshared(p: Predicate, truth: set<int>, pos: int, k: int)
    requires p.Index(pos) && k <= p.n
  {
    forall comp1 :: 0 <= comp1 < k ==> ApartAbove(p, truth, pos, comp1, p.n)
  }

  /** No position below k holds two different components. */
  predicate PositionsUnshared(p: Predicate, truth: set<int>, k: int)
    requires k <= p.n
  {
    forall pos :: 0 <= pos < k ==> PositionUnshared(p, truth, pos, p.n)
  }

  lemma {:induction false} SatUniqueness3(p: Predicate, truth: set<int>, pos: int, comp1: int, k: int)
    requires p.Index(pos) && p.Index(comp1) && comp1 + 1 <= k <= p.n
    ensures SatAll(truth, Uniqueness3(p, pos, comp1, k)) <==> ApartAbove(p, truth, pos, comp1, k)
    decreases k
  {
    if k > comp1 + 1 {
      SatUniqueness3(p, truth, pos, comp1, k - 1);
      SatAllAppend(truth, Uniqueness3(p, pos, comp1, k - 1), UniquenessPair(p, pos, comp1, k - 1));
      SatUniquenessPair(p, truth, pos, comp1, k - 1);
    }
  }

  lemma {:induction false} SatUniqueness2(p: Predicate, truth: set<int>, pos: int, k: nat)
    requires p.Index(pos) && k <= p.n
    ensures SatAll(truth, Uniqueness2(p, pos, k)) <==> PositionUnshared(p, truth, pos, k)
  {
    if k > 0 {
      SatUniqueness2(p, truth, pos, k - 1);
      SatUniqueness3(p, truth, pos, k - 1, p.n);
      PositionUnsharedSplit(p, truth, pos, k);
      SatAllJoin(truth, Uniqueness2(p, pos, k), Uniqueness2(p, pos, k - 1), Uniqueness3(p, pos, k - 1, p.n),
                 PositionUnshared(p, truth, pos, k), PositionUnshared(p, truth, pos, k - 1), ApartAbove(p, truth, pos, k - 1, p.n));
    }
  }

  lemma PositionUnsharedSplit(p: Predicate, truth: set<int>, pos: int, k: nat)
    requires p.Index(pos) && 0 < k <= p.n
    ensures PositionUnshared(p, truth, pos, k) <==>
              PositionUnshared(p, truth, pos, k - 1) && ApartAbove(p, truth, pos, k - 1, p.n)
  {
  }

  lemma {:induction false} SatUniqueness1(p: Predicate, truth: set<int>, k: nat)
    requires k <= p.n
    ensures SatAll(truth, Uniqueness1(p, k)) <==> PositionsUnshared(p, truth, k)
  {
    if k > 0 {
      SatUniqueness1(p, truth, k - 1);
      SatUniqueness2(p, truth, k - 1, p.n);
      PositionsUnsharedSplit(p, truth, k);
      SatAllJoin(truth, Uniqueness1(p, k), Uniqueness1(p, k - 1), Uniqueness2(p, k - 1, p.n),
                 PositionsUnshared(p, truth, k), PositionsUnshared(p, truth, k - 1), PositionUnshared(p, truth, k - 1, p.n));
    }
  }

  lemma PositionsUnsharedSplit(p: Predicate, truth: set<int>, k: nat)
    requires 0 < k <= p.n
    ensures PositionsUnshared(p, truth, k) <==> PositionsUnshared(p, truth, k - 1) && PositionUnshared(p, truth, k - 1, p.n)
  {
  }

  /**
   * The uniqueness clauses, emitted only for comp1 < comp2, hold exactly
   * when no position holds two different components.
   */
  lemma SatUniqueness(p: Predicate, truth: set<int>)
    ensures SatAll(truth, Uniqueness(p)) <==> AtMostOnePerPosition(p, truth)
  {
    SatUniqueness1(p, truth, p.n);
    if SatAll(truth, Uniqueness(p)) {
      forall pos, comp1, comp2 | 0 <= pos < p.n && 0 <= comp1 < p.n && 0 <= comp2 < p.n && comp1 != comp2
        ensures Apart(p, truth, pos, comp1, comp2)
      {
        assert PositionsUnshared(p, truth, p.n);
        assert PositionUnshared(p, truth, pos, p.n);
        if comp2 < comp1 {
          assert ApartAbove(p, truth, pos, comp2, p.n);
          assert Apart(p, truth, pos, comp2, comp1);
        } else {
          assert ApartAbove(p, truth, pos, comp1, p.n);
        }
      }
    }
    if AtMostOnePerPosition(p, truth) {
      forall pos | 0 <= pos < p.n ensures PositionUnshared(p, truth, pos, p.n) {
        forall comp1 | 0 <= comp1 < p.n ensures ApartAbove(p, truth, pos, comp1, p.n) {
        }
      }
      assert PositionsUnshared(p, truth, p.n);
    }
  }

  // ---------------------------------------------------------------------
  // Connection.

  lemma SatConnectionPair(p: Predicate, truth: set<int>, comp1: int, comp2: int, pos1: int, pos2: int)
    requires p.Index(comp1) && p.Index(comp2) && p.Index(pos1) && p.Index(pos2)
    ensures SatAll(truth, ConnectionPair(p, comp1, comp2, pos1, pos2)) <==>
              WiredIffConnected(p, truth, comp1, comp2, pos1, pos2)
  {
    var pair := ConnectionPair(p, comp1, comp2, pos1, pos2);
    var l, r, w, c := p.L(comp1, pos1), p.R(comp2, pos2), p.W(pos1, pos2), p.C(comp1, comp2);
    SatImplication(truth, l, r, c, w);
    SatImplication(truth, l, r, w, c);
    assert SatAll(truth, pair) <==> SatClause(truth, pair[0]) && SatClause(truth, pair[1]);
  }

  /** The biconditional holds for comp1 at left position pos1, comp2 and every right position below k. */
  predicate WiredRow(p: Predicate, truth: set<int>, comp1: int, comp2: int, pos1: int, k: int)
    requires p.Index(comp1) && p.Index(comp2) && p.Index(pos1) && k <= p.n
  {
    forall pos2 :: 0 <= pos2 < k ==> WiredIffConnected(p, truth, comp1, comp2, pos1, pos2)
  }

  /** The biconditional holds for comp1, comp2, every left position below k and every right position. */
  predicate WiredPair(p: Predicate, truth: set<int>, comp1: int, comp2: int, k: int)
    requires p.Index(comp1) && p.Index(comp2) && k <= p.n
  {
    forall pos1 :: 0 <= pos1 < k ==> WiredRow(p, truth, comp1, comp2, pos1, p.n)
  }

  /** The biconditional holds for comp1, every component below k and all positions. */
  predicate WiredFrom(p: Predicate, truth: set<int>, comp1: int, k: int)
    requires p.Index(comp1) && k <= p.n
  {
    forall comp2 :: 0 <= comp2 < k ==> WiredPair(p, truth, comp1, comp2, p.n)
  }

  /** The biconditional holds for every component below k and all other indices. */
  predicate WiredBelow(p: Predicate, truth: set<int>, k: int)
    requires k <= p.n
  {
    forall comp1 :: 0 <= comp1 < k ==> WiredFrom(p, truth, comp1, p.n)
  }

  lemma {:induction false} SatConnection4(p: Predicate, truth: set<int>, comp1: int, comp2: int, pos1: int, k: nat)
    requires p.Index(comp1) && p.Index(comp2) && p.Index(pos1) && k <= p.n
    ensures SatAll(truth, Connection4(p, comp1, comp2, pos1, k)) <==> WiredRow(p, truth, comp1, comp2, pos1, k)
  {
    if k > 0 {
      SatConnection4(p, truth, comp1, comp2, pos1, k - 1);
      SatAllAppend(truth, Connection4(p, comp1, comp2, pos1, k - 1), ConnectionPair(p, comp1, comp2, pos1, k - 1));
      SatConnectionPair(p, truth, comp1, comp2, pos1, k - 1);
    }
  }

  lemma {:induction false} SatConnection3(p: Predicate, truth: set<int>, comp1: int, comp2: int, k: nat)
    requires p.Index(comp1) && p.Index(comp2) && k <= p.n
    ensures SatAll(truth, Connection3(p, comp1, comp2, k)) <==> WiredPair(p, truth, comp1, comp2, k)
  {
    if k > 0 {
      SatConnection3(p, truth, comp1, comp2, k - 1);
      SatConnection4(p, truth, comp1, comp2, k - 1, p.n);
      WiredPairSplit(p, truth, comp1, comp2, k);
      SatAllJoin(truth, Connection3(p, comp1, comp2, k), Connection3(p, comp1, comp2, k - 1), Connection4(p, comp1, comp2, k - 1, p.n),
                 WiredPair(p, truth, comp1, comp2, k), WiredPair(p, truth, comp1, comp2, k - 1), WiredRow(p, truth, comp1, comp2, k - 1, p.n));
    }
  }

  lemma WiredPairSplit(p: Predicate, truth: set<int>, comp1: int, comp2: int, k: nat)
    requires p.Index(comp1) && p.Index(comp2) && 0 < k <= p.n
    ensures WiredPair(p, truth, comp1, comp2, k) <==>
              WiredPair(p, truth, comp1, comp2, k - 1) && WiredRow(p, truth, comp1, comp2, k - 1, p.n)
  {
  }

  lemma {:induction false} SatConnection2(p: Predicate, truth: set<int>, comp1: int, k: nat)
    requires p.Index(comp1) && k <= p.n
    ensures SatAll(truth, Connection2(p, comp1, k)) <==> WiredFrom(p, truth, comp1, k)
  {
    if k > 0 {
      SatConnection2(p, truth, comp1, k - 1);
      SatConnection3(p, truth, comp1, k - 1, p.n);
      WiredFromSplit(p, truth, comp1, k);
      SatAllJoin(truth, Connection2(p, comp1, k), Connection2(p, comp1, k - 1), Connection3(p, comp1, k - 1, p.n),
                 WiredFrom(p, truth, comp1, k), WiredFrom(p, truth, comp1, k - 1), WiredPair(p, truth, comp1, k - 1, p.n));
    }
  }

  lemma WiredFromSplit(p: Predicate, truth: set<int>, comp1: int, k: nat)
    requires p.Index(comp1) && 0 < k <= p.n
    ensures WiredFrom(p, truth, comp1, k) <==> WiredFrom(p, truth, comp1, k - 1) && WiredPair(p, truth, comp1, k - 1, p.n)
  {
  }

  lemma {:induction false} SatConnection1(p: Predicate, truth: set<int>, k: nat)
    requires k <= p.n
    ensures SatAll(truth, Connection1(p, k)) <==> WiredBelow(p, truth, k)
  {
    if k > 0 {
      SatConnection1(p, truth, k - 1);
      SatConnection2(p, truth, k - 1, p.n);
      WiredBelowSplit(p, truth, k);
      SatAllJoin(truth, Connection1(p, k), Connection1(p, k - 1), Connection2(p, k - 1, p.n),
                 WiredBelow(p, truth, k), WiredBelow(p, truth, k - 1), WiredFrom(p, truth, k - 1, p.n));
    }
  }

  lemma WiredBelowSplit(p: Predicate, truth: set<int>, k: nat)
    requires 0 < k <= p.n
    ensures WiredBelow(p, truth, k) <==> WiredBelow(p, truth, k - 1) && WiredFrom(p, truth, k - 1, p.n)
  {
  }

  /**
   * The connection clauses hold exactly when, wherever comp1 sits at left
   * position pos1 and comp2 at right position pos2, w(pos1, pos2) is true
   * iff c(comp1, comp2) is.
   */
  lemma SatConnection(p: Predicate, truth: set<int>)
    ensures SatAll(truth, Connection(p)) <==> WiresFollowConnections(p, truth)
  {
    SatConnection1(p, truth, p.n);
    if SatAll(truth, Connection(p)) {
      forall comp1, comp2, pos1, pos2 | 0 <= comp1 < p.n && 0 <= comp2 < p.n && 0 <= pos1 < p.n && 0 <= pos2 < p.n
        ensures WiredIffConnected(p, truth, comp1, comp2, pos1, pos2)
      {
        assert WiredBelow(p, truth, p.n);
        assert WiredFrom(p, truth, comp1, p.n);
        assert WiredPair(p, truth, comp1, comp2, p.n);
        assert WiredRow(p, truth, comp1, comp2, pos1, p.n);
      }
    }
    if WiresFollowConnections(p, truth) {
      forall comp1 | 0 <= comp1 < p.n ensures WiredFrom(p, truth, comp1, p.n) {
        forall comp2 | 0 <= comp2 < p.n ensures WiredPair(p, truth, comp1, comp2, p.n) {
          forall pos1 | 0 <= pos1 < p.n ensures WiredRow(p, truth, comp1, comp2, pos1, p.n) {
          }
        }
      }
      assert WiredBelow(p, truth, p.n);
    }
  }

  // ---------------------------------------------------------------------
  // No crossing.

  /** The wire (left2, right2) crosses none of the wires (left1, right1) with right2 < right1 < k. */
  predicate UncrossedFrom(p: Predicate, truth: set<int>, left1: int, left2: int, right2: int, k: int)
    requires p.Index(left1) && p.Index(left2) && p.Index(right2) && k <= p.n
  {
    forall right1 :: right2 < right1 < k ==> Uncrossed(p, truth, left1, left2, right2, right1)
  }

  /** No wire from left1 crosses a wire from left2 ending at a right position below k. */
  predicate PairUncrossed(p: Predicate, truth: set<int>, left1: int, left2: int, k: int)
    requires p.Index(left1) && p.Index(left2) && k <= p.n
  {
    forall right2 :: 0 <= right2 < k ==> UncrossedFrom(p, truth, left1, left2, right2, p.n)
  }

  /** No wire from left1 crosses a wire from any of the left positions left1+1 .. k-1. */
  predicate LeftUncrossed(p: Predicate, truth: set<int>, left1: int, k: int)
    requires p.Index(left1) && k <= p.n
  {
    forall left2 :: left1 < left2 < k ==> PairUncrossed(p, truth, left1, left2, p.n)
  }

  /** No wire from a left position below k crosses another wire. */
  predicate UncrossedBelow(p: Predicate, truth: set<int>, k: int)
    requires k <= p.n
  {
    forall left1 :: 0 <= left1 < k ==> LeftUncrossed(p, truth, left1, p.n)
  }

  lemma {:induction false} SatNoCrossing4(p: Predicate, truth: set<int>, left1: int, left2: int, right2: int, k: int)
    requires p.Index(left1) && p.Index(left2) && p.Index(right2) && right2 + 1 <= k <= p.n
    ensures SatAll(truth, NoCrossing4(p, left1, left2, right2, k)) <==> UncrossedFrom(p, truth, left1, left2, right2, k)
    decreases k
  {
    if k > right2 + 1 {
      SatNoCrossing4(p, truth, left1, left2, right2, k - 1);
      var cl := CrossingClause(p, left1, left2, right2, k - 1);
      SatAllAppend(truth, NoCrossing4(p, left1, left2, right2, k - 1), [cl]);
      SatBinary(truth, p.W(left1, k - 1), p.W(left2, right2));
      SatAllSingle(truth, cl);
      assert NoCrossing4(p, left1, left2, right2, k) == NoCrossing4(p, left1, left2, right2, k - 1) + [cl];
      assert SatClause(truth, cl) <==> Uncrossed(p, truth, left1, left2, right2, k - 1);
    }
  }

  lemma {:induction false} SatNoCrossing3(p: Predicate, truth: set<int>, left1: int, left2: int, k: nat)
    requires p.Index(left1) && p.Index(left2) && k <= p.n
    ensures SatAll(truth, NoCrossing3(p, left1, left2, k)) <==> PairUncrossed(p, truth, left1, left2, k)
  {
    if k > 0 {
      SatNoCrossing3(p, truth, left1, left2, k - 1);
      SatNoCrossing4(p, truth, left1, left2, k - 1, p.n);
      PairUncrossedSplit(p, truth, left1, left2, k);
      SatAllJoin(truth, NoCrossing3(p, left1, left2, k), NoCrossing3(p, left1, left2, k - 1), NoCrossing4(p, left1, left2, k - 1, p.n),
                 PairUncrossed(p, truth, left1, left2, k), PairUncrossed(p, truth, left1, left2, k - 1), UncrossedFrom(p, truth, left1, left2, k - 1, p.n));
    }
  }

  lemma PairUncrossedSplit(p: Predicate, truth: set<int>, left1: int, left2: int, k: nat)
    requires p.Index(left1) && p.Index(left2) && 0 < k <= p.n
    ensures PairUncrossed(p, truth, left1, left2, k) <==>
              PairUncrossed(p, truth, left1, left2, k - 1) && UncrossedFrom(p, truth, left1, left2, k - 1, p.n)
  {
  }

  lemma {:induction false} SatNoCrossing2(p: Predicate, truth: set<int>, left1: int, k: int)
    requires p.Index(left1) && left1 + 1 <= k <= p.n
    ensures SatAll(truth, NoCrossing2(p, left1, k)) <==> LeftUncrossed(p, truth, left1, k)
    decreases k
  {
    if k > left1 + 1 {
      SatNoCrossing2(p, truth, left1, k - 1);
      SatNoCrossing3(p, truth, left1, k - 1, p.n);
      LeftUncrossedSplit(p, truth, left1, k);
      SatAllJoin(truth, NoCrossing2(p, left1, k), NoCrossing2(p, left1, k - 1), NoCrossing3(p, left1, k - 1, p.n),
                 LeftUncrossed(p, truth, left1, k), LeftUncrossed(p, truth, left1, k - 1), PairUncrossed(p, truth, left1, k - 1, p.n));
    }
  }

  lemma LeftUncrossedSplit(p: Predicate, truth: set<int>, left1: int, k: int)
    requires p.Index(left1) && left1 + 1 < k <= p.n
    ensures LeftUncrossed(p, truth, left1, k) <==>
              LeftUncrossed(p, truth, left1, k - 1) && PairUncrossed(p, truth, left1, k - 1, p.n)
  {
  }

  lemma {:induction false} SatNoCrossing1(p: Predicate, truth: set<int>, k: nat)
    requires k <= p.n
    ensures SatAll(truth, NoCrossing1(p, k)) <==> UncrossedBelow(p, truth, k)
  {
    if k > 0 {
      SatNoCrossing1(p, truth, k - 1);
      SatNoCrossing2(p, truth, k - 1, p.n);
      UncrossedBelowSplit(p, truth, k);
      SatAllJoin(truth, NoCrossing1(p, k), NoCrossing1(p, k - 1), NoCrossing2(p, k - 1, p.n),
                 UncrossedBelow(p, truth, k), UncrossedBelow(p, truth, k - 1), LeftUncrossed(p, truth, k - 1, p.n));
    }
  }

  lemma UncrossedBelowSplit(p: Predicate, truth: set<int>, k: nat)
    requires 0 < k <= p.n
    ensures UncrossedBelow(p, truth, k) <==> UncrossedBelow(p, truth, k - 1) && LeftUncrossed(p, truth, k - 1, p.n)
  {
  }

  /** The no-crossing clauses hold exactly when no two drawn wires cross. */
  lemma SatNoCrossing(p: Predicate, truth: set<int>)
    ensures SatAll(truth, NoCrossing(p)) <==> NoWiresCross(p, truth)
  {
    SatNoCrossing1(p, truth, p.n);
    if SatAll(truth, NoCrossing(p)) {
      forall left1, left2, right2, right1 | 0 <= left1 < left2 < p.n && 0 <= right2 < right1 < p.n
        ensures Uncrossed(p, truth, left1, left2, right2, right1)
      {
        assert UncrossedBelow(p, truth, p.n);
        assert LeftUncrossed(p, truth, left1, p.n);
        assert PairUncrossed(p, truth, left1, left2, p.n);
        assert UncrossedFrom(p, truth, left1, left2, right2, p.n);
      }
    }
    if NoWiresCross(p, truth) {
      forall left1 | 0 <= left1 < p.n ensures LeftUncrossed(p, truth, left1, p.n) {
        forall left2 | left1 < left2 < p.n ensures PairUncrossed(p, truth, left1, left2, p.n) {
          forall right2 | 0 <= right2 < p.n ensures UncrossedFrom(p, truth, left1, left2, right2, p.n) {
          }
        }
      }
      assert UncrossedBelow(p, truth, p.n);
    }
  }

  // ---------------------------------------------------------------------

  /** The whole encoding holds exactly when all five properties do. */
  lemma SatEncoded(p: Predicate, m: Matrix, truth: set<int>)
    requires |m| == p.n && Binary(m)
    ensures SatAll(truth, Encoded(p, m)) <==>
              FixesMatrix(p, m, truth) && EveryComponentPlaced(p, truth) && AtMostOnePerPosition(p, truth) &&
              WiresFollowConnections(p, truth) && NoWiresCross(p, truth)
  {
    var s, e, u, c, x := Singleton(p, m), Existence(p), Uniqueness(p), Connection(p), NoCrossing(p);
    SatAllAppend(truth, s, e);
    SatAllAppend(truth, s + e, u);
    SatAllAppend(truth, s + e + u, c);
    SatAllAppend(truth, s + e + u + c, x);
    SatSingleton(p, m, truth);
    SatExistence(p, truth);
    SatUniqueness(p, truth);
    SatConnection(p, truth);
    SatNoCrossing(p, truth);
  }
}
