/**
 * Clauses in the DIMACS convention and what it means for a truth
 * assignment to satisfy them.
 */
module Clauses {
  import opened Variables

  /**
   * A disjunction of literals: a positive literal v asserts variable v,
   * a negative literal -v denies it.
   */
  type Clause = seq<int>

  function Abs(x: int): nat { if x < 0 then -x else x }

  /** A truth assignment is the set of variable ids that are true. */
  predicate SatLit(truth: set<int>, lit: int) {
    if lit > 0 then lit in truth else -lit !in truth
  }

  predicate SatClause(truth: set<int>, cl: Clause) {
    exists i :: 0 <= i < |cl| && SatLit(truth, cl[i])
  }

  /** The assignment satisfies every clause of the list. */
  predicate SatAll(truth: set<int>, cls: seq<Clause>) {
    forall k :: 0 <= k < |cls| ==> SatClause(truth, cls[k])
  }

  /** Every literal names a variable between 1 and the header's count cMax. */
  predicate WithinHeader(p: Predicate, cls: seq<Clause>) {
    forall k, i :: 0 <= k < |cls| && 0 <= i < |cls[k]| ==> 1 <= Abs(cls[k][i]) <= p.CMax()
  }

  /** A list of clauses is satisfied exactly when both of its parts are. */
  lemma SatAllAppend(truth: set<int>, a: seq<Clause>, b: seq<Clause>)
    ensures SatAll(truth, a + b) <==> SatAll(truth, a) && SatAll(truth, b)
  {
    if SatAll(truth, a) && SatAll(truth, b) {
      forall k | 0 <= k < |a + b| ensures SatClause(truth, (a + b)[k]) {
        if k < |a| {
          assert (a + b)[k] == a[k];
        } else {
          assert (a + b)[k] == b[k - |a|];
        }
      }
    }
    if SatAll(truth, a + b) {
      forall k | 0 <= k < |a| ensures SatClause(truth, a[k]) {
        assert (a + b)[k] == a[k];
      }
      forall k | 0 <= k < |b| ensures SatClause(truth, b[k]) {
        assert (a + b)[|a| + k] == b[k];
      }
    }
  }

  /**
   * A list made of two parts is satisfied exactly when a property holds,
   * given what each part's satisfaction amounts to and how the property
   * splits over the parts.
   */
  lemma SatAllJoin(truth: set<int>, whole: seq<Clause>, a: seq<Clause>, b: seq<Clause>, all: bool, pa: bool, pb: bool)
    requires whole == a + b
    requires SatAll(truth, a) == pa && SatAll(truth, b) == pb && all == (pa && pb)
    ensures SatAll(truth, whole) == all
  {
    SatAllAppend(truth, a, b);
  }

  /** A one-clause list is satisfied exactly when its clause is. */
  lemma SatAllSingle(truth: set<int>, cl: Clause)
    ensures SatAll(truth, [cl]) <==> SatClause(truth, cl)
  {
    assert [cl][0] == cl;
  }

  /** A two-clause list is satisfied exactly when both of its clauses are. */
  lemma SatAllTwo(truth: set<int>, cl1: Clause, cl2: Clause)
    ensures SatAll(truth, [cl1, cl2]) <==> SatClause(truth, cl1) && SatClause(truth, cl2)
  {
    assert [cl1, cl2][0] == cl1 && [cl1, cl2][1] == cl2;
  }

  /** The two clauses [-x, -y] and [x, y] in terms of the assignment. */
  lemma SatBinary(truth: set<int>, x: int, y: int)
    requires x > 0 && y > 0
    ensures SatClause(truth, [-x, -y]) <==> !(x in truth && y in truth)
  {
    if !(x in truth && y in truth) {
      if x !in truth {
        assert SatLit(truth, [-x, -y][0]);
      } else {
        assert SatLit(truth, [-x, -y][1]);
      }
    }
  }

  /** A unit clause in terms of the assignment. */
  lemma SatUnit(truth: set<int>, x: int)
    requires x > 0
    ensures SatClause(truth, [x]) <==> x in truth
    ensures SatClause(truth, [-x]) <==> x !in truth
  {
    if x in truth {
      assert SatLit(truth, [x][0]);
    } else {
      assert SatLit(truth, [-x][0]);
    }
  }

  /** A clause of four literals, three denied and one asserted. */
  lemma SatImplication(truth: set<int>, a: int, b: int, c: int, d: int)
    requires a > 0 && b > 0 && c > 0 && d > 0
    ensures SatClause(truth, [-a, -b, -c, d]) <==> (a in truth && b in truth && c in truth ==> d in truth)
  {
    var cl := [-a, -b, -c, d];
    if a !in truth {
      assert SatLit(truth, cl[0]);
    } else if b !in truth {
      assert SatLit(truth, cl[1]);
    } else if c !in truth {
      assert SatLit(truth, cl[2]);
    } else if d in truth {
      assert SatLit(truth, cl[3]);
    } else {
      forall i | 0 <= i < 4 ensures !SatLit(truth, cl[i]) {
      }
    }
  }
}
