/**
 * How many clauses each family of the encoding has. With T = n(n-1)/2
 * unordered pairs, there are n^2 singleton clauses, 2n existence clauses,
 * n * n(n-1) uniqueness clauses, 2n^4 connection clauses and T^2
 * no-crossing clauses; the count depends on n only.
 */
module Counts {
  import opened Variables
  import opened Clauses
  import opened Encoding

  lemma {:induction false} Singleton2Count(p: Predicate, m: Matrix, i: nat, j: nat)
    requires |m| == p.n && p.Index(i) && j <= p.n
    requires forall b :: 0 <= b < j ==> ValidEntry(m, i, b)
    ensures |Singleton2(p, m, i, j)| == j
  {
    if j > 0 {
      Singleton2Count(p, m, i, j - 1);
    }
  }

  lemma {:induction false} Singleton1Count(p: Predicate, m: Matrix, i: nat)
    requires |m| == p.n && i <= p.n
    requires forall a, b :: 0 <= a < i && 0 <= b < p.n ==> ValidEntry(m, a, b)
    ensures |Singleton1(p, m, i)| == i * p.n
  {
    if i > 0 {
      Singleton1Count(p, m, i - 1);
      Singleton2Count(p, m, i - 1, p.n);
      assert (i - 1) * p.n + p.n == i * p.n;
    }
  }

  /** One unit clause per matrix entry. */
  lemma SingletonCount(p: Predicate, m: Matrix)
    requires |m| == p.n && Binary(m)
    ensures |Singleton(p, m)| == p.n * p.n
  {
    Singleton1Count(p, m, p.n);
  }

  lemma {:induction false} Existence1Count(p: Predicate, k: nat)
    requires k <= p.n
    ensures |Existence1(p, k)| == 2 * k
  {
    if k > 0 {
      Existence1Count(p, k - 1);
    }
  }

  /** Two clauses (left and right) per component. */
  lemma ExistenceCount(p: Predicate)
    ensures |Existence(p)| == 2 * p.n
  {
    Existence1Count(p, p.n);
  }

  /** The number of pairs x < y of indices below n, n(n-1)/2. */
  function Pairs(n: nat): nat {
    if n == 0 then 0 else Pairs(n - 1) + (n - 1)
  }

  lemma {:induction false} PairsDouble(n: nat)
    ensures 2 * Pairs(n) == n * (n - 1)
  {
    if n > 0 {
      PairsDouble(n - 1);
      assert (n - 1) * (n - 2) + 2 * (n - 1) == n * (n - 1);
    }
  }

  /** The number of pairs x < y of indices below n with x < k: (n-1) + (n-2) + ... + (n-k). */
  function PairsFrom(n: nat, k: nat): int {
    if k == 0 then 0 else PairsFrom(n, k - 1) + (n - k)
  }

  lemma {:induction false} PairsFromDouble(n: nat, k: nat)
    ensures 2 * PairsFrom(n, k) == k * (2 * n - 1 - k)
  {
    if k > 0 {
      PairsFromDouble(n, k - 1);
      assert (k - 1) * (2 * n - 1 - (k - 1)) + 2 * (n - k) == k * (2 * n - 1 - k);
    }
  }

  /** Counting the pairs by their smaller element gives all of them. */
  lemma PairsFromAll(n: nat)
    ensures PairsFrom(n, n) == Pairs(n)
  {
    PairsFromDouble(n, n);
    PairsDouble(n);
    assert n * (2 * n - 1 - n) == n * (n - 1);
  }

  lemma Distrib(a: int, b: int, t: int)
    ensures a * t + b * t == (a + b) * t
  {
  }

  lemma {:induction false} Uniqueness3Count(p: Predicate, pos: int, comp1: int, k: int)
    requires p.Index(pos) && p.Index(comp1) && comp1 + 1 <= k <= p.n
    ensures |Uniqueness3(p, pos, comp1, k)| == 2 * (k - comp1 - 1)
    decreases k
  {
    if k > comp1 + 1 {
      Uniqueness3Count(p, pos, comp1, k - 1);
    }
  }

  lemma {:induction false} Uniqueness2Count(p: Predicate, pos: int, k: nat)
    requires p.Index(pos) && k <= p.n
    ensures |Uniqueness2(p, pos, k)| == 2 * PairsFrom(p.n, k)
  {
    if k > 0 {
      Uniqueness2Count(p, pos, k - 1);
      Uniqueness3Count(p, pos, k - 1, p.n);
    }
  }

  lemma {:induction false} Uniqueness1Count(p: Predicate, k: nat)
    requires k <= p.n
    ensures |Uniqueness1(p, k)| == k * (2 * Pairs(p.n))
  {
    if k > 0 {
      Uniqueness1Count(p, k - 1);
      Uniqueness2Count(p, k - 1, p.n);
      PairsFromAll(p.n);
      Distrib(k - 1, 1, 2 * Pairs(p.n));
    }
  }

  /** Two clauses per position and unordered pair of components: n * n(n-1) in all. */
  lemma UniquenessCount(p: Predicate)
    ensures |Uniqueness(p)| == p.n * (p.n * (p.n - 1))
  {
    Uniqueness1Count(p, p.n);
    PairsDouble(p.n);
  }

  lemma {:induction false} Connection4Count(p: Predicate, comp1: int, comp2: int, pos1: int, k: nat)
    requires p.Index(comp1) && p.Index(comp2) && p.Index(pos1) && k <= p.n
    ensures |Connection4(p, comp1, comp2, pos1, k)| == 2 * k
  {
    if k > 0 {
      Connection4Count(p, comp1, comp2, pos1, k - 1);
    }
  }

  lemma {:induction false} Connection3Count(p: Predicate, comp1: int, comp2: int, k: nat)
    requires p.Index(comp1) && p.Index(comp2) && k <= p.n
    ensures |Connection3(p, comp1, comp2, k)| == k * (2 * p.n)
  {
    if k > 0 {
      Connection3Count(p, comp1, comp2, k - 1);
      Connection4Count(p, comp1, comp2, k - 1, p.n);
      Distrib(k - 1, 1, 2 * p.n);
    }
  }

  lemma {:induction false} Connection2Count(p: Predicate, comp1: int, k: nat)
    requires p.Index(comp1) && k <= p.n
    ensures |Connection2(p, comp1, k)| == k * (p.n * (2 * p.n))
  {
    if k > 0 {
      Connection2Count(p, comp1, k - 1);
      Connection3Count(p, comp1, k - 1, p.n);
      Distrib(k - 1, 1, p.n * (2 * p.n));
    }
  }

  lemma {:induction false} Connection1Count(p: Predicate, k: nat)
    requires k <= p.n
    ensures |Connection1(p, k)| == k * (p.n * (p.n * (2 * p.n)))
  {
    if k > 0 {
      Connection1Count(p, k - 1);
      Connection2Count(p, k - 1, p.n);
      Distrib(k - 1, 1, p.n * (p.n * (2 * p.n)));
    }
  }

  /** Two clauses per quadruple (component, component, position, position): 2n^4 in all. */
  lemma ConnectionCount(p: Predicate)
    ensures |Connection(p)| == 2 * (p.n * p.n * p.n * p.n)
  {
    Connection1Count(p, p.n);
    TwiceFourthPower(p.n);
  }

  lemma TwiceFourthPower(n: int)
    ensures n * (n * (n * (2 * n))) == 2 * (n * n * n * n)
  {
    assert n * (2 * n) == 2 * (n * n);
    assert n * (n * (2 * n)) == 2 * (n * n * n);
  }

  lemma {:induction false} NoCrossing4Count(p: Predicate, left1: int, left2: int, right2: int, k: int)
    requires p.Index(left1) && p.Index(left2) && p.Index(right2) && right2 + 1 <= k <= p.n
    ensures |NoCrossing4(p, left1, left2, right2, k)| == k - right2 - 1
    decreases k
  {
    if k > right2 + 1 {
      NoCrossing4Count(p, left1, left2, right2, k - 1);
    }
  }

  lemma {:induction false} NoCrossing3Count(p: Predicate, left1: int, left2: int, k: nat)
    requires p.Index(left1) && p.Index(left2) && k <= p.n
    ensures |NoCrossing3(p, left1, left2, k)| == PairsFrom(p.n, k)
  {
    if k > 0 {
      NoCrossing3Count(p, left1, left2, k - 1);
      NoCrossing4Count(p, left1, left2, k - 1, p.n);
    }
  }

  lemma {:induction false} NoCrossing2Count(p: Predicate, left1: int, k: int)
    requires p.Index(left1) && left1 + 1 <= k <= p.n
    ensures |NoCrossing2(p, left1, k)| == (k - left1 - 1) * Pairs(p.n)
    decreases k
  {
    if k > left1 + 1 {
      NoCrossing2Count(p, left1, k - 1);
      NoCrossing3Count(p, left1, k - 1, p.n);
      PairsFromAll(p.n);
      Distrib(k - 1 - left1 - 1, 1, Pairs(p.n));
    }
  }

  lemma {:induction false} NoCrossing1Count(p: Predicate, k: nat)
    requires k <= p.n
    ensures |NoCrossing1(p, k)| == PairsFrom(p.n, k) * Pairs(p.n)
  {
    if k > 0 {
      NoCrossing1Count(p, k - 1);
      NoCrossing2Count(p, k - 1, p.n);
      Distrib(PairsFrom(p.n, k - 1), p.n - k, Pairs(p.n));
    }
  }

  /** One clause per pair left1 < left2 and pair right2 < right1. */
  lemma NoCrossingCount(p: Predicate)
    ensures |NoCrossing(p)| == Pairs(p.n) * Pairs(p.n)
  {
    NoCrossing1Count(p, p.n);
    PairsFromAll(p.n);
  }

  /**
   * The clause count the header reports: n^2 + 2n + n*n(n-1) + 2n^4 + (n(n-1)/2)^2,
   * a function of n alone.
   */
  lemma EncodingCount(p: Predicate, m: Matrix)
    requires |m| == p.n && Binary(m)
    ensures var n := p.n;
      && 2 * Pairs(n) == n * (n - 1)
      && |Encoded(p, m)| == n * n + 2 * n + n * (n * (n - 1)) + 2 * (n * n * n * n) + Pairs(n) * Pairs(n)
  {
    PairsDouble(p.n);
    SingletonCount(p, m);
    ExistenceCount(p);
    UniquenessCount(p);
    ConnectionCount(p);
    NoCrossingCount(p);
  }

  /** Every literal of the encoding names a variable counted by the header's cMax. */
  lemma EncodingWithinHeader(p: Predicate, m: Matrix)
    requires |m| == p.n && Binary(m)
    ensures WithinHeader(p, Encoded(p, m))
  {
    Singleton1Within(p, m, p.n);
    Existence1Within(p, p.n);
    Uniqueness1Within(p, p.n);
    Connection1Within(p, p.n);
    NoCrossing1Within(p, p.n);
    WithinHeaderAppend(p, Singleton(p, m), Existence(p));
    WithinHeaderAppend(p, Singleton(p, m) + Existence(p), Uniqueness(p));
    WithinHeaderAppend(p, Singleton(p, m) + Existence(p) + Uniqueness(p), Connection(p));
    WithinHeaderAppend(p, Singleton(p, m) + Existence(p) + Uniqueness(p) + Connection(p), NoCrossing(p));
  }

  // ---------------------------------------------------------------------
  // Every family names only variables the header counts.

  lemma {:induction false} Singleton2Within(p: Predicate, m: Matrix, i: nat, j: nat)
    requires |m| == p.n && p.Index(i) && j <= p.n
    requires forall b :: 0 <= b < j ==> ValidEntry(m, i, b)
    ensures WithinHeader(p, Singleton2(p, m, i, j))
  {
    if j > 0 {
      Singleton2Within(p, m, i, j - 1);
      WithinHeaderAppend(p, Singleton2(p, m, i, j - 1), [SingletonClause(p, m, i, j - 1)]);
    }
  }

  lemma {:induction false} Singleton1Within(p: Predicate, m: Matrix, i: nat)
    requires |m| == p.n && i <= p.n
    requires forall a, b :: 0 <= a < i && 0 <= b < p.n ==> ValidEntry(m, a, b)
    ensures WithinHeader(p, Singleton1(p, m, i))
  {
    if i > 0 {
      Singleton1Within(p, m, i - 1);
      Singleton2Within(p, m, i - 1, p.n);
      WithinHeaderAppend(p, Singleton1(p, m, i - 1), Singleton2(p, m, i - 1, p.n));
    }
  }

  lemma {:induction false} Existence1Within(p: Predicate, k: nat)
    requires k <= p.n
    ensures WithinHeader(p, Existence1(p, k))
  {
    if k > 0 {
      Existence1Within(p, k - 1);
      WithinHeaderAppend(p, Existence1(p, k - 1), [LeftExistence(p, k - 1), RightExistence(p, k - 1)]);
    }
  }

  lemma {:induction false} Uniqueness3Within(p: Predicate, pos: int, comp1: int, k: int)
    requires p.Index(pos) && p.Index(comp1) && comp1 + 1 <= k <= p.n
    ensures WithinHeader(p, Uniqueness3(p, pos, comp1, k))
    decreases k
  {
    if k > comp1 + 1 {
      Uniqueness3Within(p, pos, comp1, k - 1);
      WithinHeaderAppend(p, Uniqueness3(p, pos, comp1, k - 1), UniquenessPair(p, pos, comp1, k - 1));
    }
  }

  lemma {:induction false} Uniqueness2Within(p: Predicate, pos: int, k: nat)
    requires p.Index(pos) && k <= p.n
    ensures WithinHeader(p, Uniqueness2(p, pos, k))
  {
    if k > 0 {
      Uniqueness2Within(p, pos, k - 1);
      Uniqueness3Within(p, pos, k - 1, p.n);
      WithinHeaderAppend(p, Uniqueness2(p, pos, k - 1), Uniqueness3(p, pos, k - 1, p.n));
    }
  }

  lemma {:induction false} Uniqueness1Within(p: Predicate, k: nat)
    requires k <= p.n
    ensures WithinHeader(p, Uniqueness1(p, k))
  {
    if k > 0 {
      Uniqueness1Within(p, k - 1);
      Uniqueness2Within(p, k - 1, p.n);
      WithinHeaderAppend(p, Uniqueness1(p, k - 1), Uniqueness2(p, k - 1, p.n));
    }
  }

  lemma {:induction false} Connection4Within(p: Predicate, comp1: int, comp2: int, pos1: int, k: nat)
    requires p.Index(comp1) && p.Index(comp2) && p.Index(pos1) && k <= p.n
    ensures WithinHeader(p, Connection4(p, comp1, comp2, pos1, k))
  {
    if k > 0 {
      Connection4Within(p, comp1, comp2, pos1, k - 1);
      WithinHeaderAppend(p, Connection4(p, comp1, comp2, pos1, k - 1), ConnectionPair(p, comp1, comp2, pos1, k - 1));
    }
  }

  lemma {:induction false} Connection3Within(p: Predicate, comp1: int, comp2: int, k: nat)
    requires p.Index(comp1) && p.Index(comp2) && k <= p.n
    ensures WithinHeader(p, Connection3(p, comp1, comp2, k))
  {
    if k > 0 {
      Connection3Within(p, comp1, comp2, k - 1);
      Connection4Within(p, comp1, comp2, k - 1, p.n);
      WithinHeaderAppend(p, Connection3(p, comp1, comp2, k - 1), Connection4(p, comp1, comp2, k - 1, p.n));
    }
  }

  lemma {:induction false} Connection2Within(p: Predicate, comp1: int, k: nat)
    requires p.Index(comp1) && k <= p.n
    ensures WithinHeader(p, Connection2(p, comp1, k))
  {
    if k > 0 {
      Connection2Within(p, comp1, k - 1);
      Connection3Within(p, comp1, k - 1, p.n);
      WithinHeaderAppend(p, Connection2(p, comp1, k - 1), Connection3(p, comp1, k - 1, p.n));
    }
  }

  lemma {:induction false} Connection1Within(p: Predicate, k: nat)
    requires k <= p.n
    ensures WithinHeader(p, Connection1(p, k))
  {
    if k > 0 {
      Connection1Within(p, k - 1);
      Connection2Within(p, k - 1, p.n);
      WithinHeaderAppend(p, Connection1(p, k - 1), Connection2(p, k - 1, p.n));
    }
  }

  lemma {:induction false} NoCrossing4Within(p: Predicate, left1: int, left2: int, right2: int, k: int)
    requires p.Index(left1) && p.Index(left2) && p.Index(right2) && right2 + 1 <= k <= p.n
    ensures WithinHeader(p, NoCrossing4(p, left1, left2, right2, k))
    decreases k
  {
    if k > right2 + 1 {
      NoCrossing4Within(p, left1, left2, right2, k - 1);
      WithinHeaderAppend(p, NoCrossing4(p, left1, left2, right2, k - 1), [CrossingClause(p, left1, left2, right2, k - 1)]);
    }
  }

  lemma {:induction false} NoCrossing3Within(p: Predicate, left1: int, left2: int, k: nat)
    requires p.Index(left1) && p.Index(left2) && k <= p.n
    ensures WithinHeader(p, NoCrossing3(p, left1, left2, k))
  {
    if k > 0 {
      NoCrossing3Within(p, left1, left2, k - 1);
      NoCrossing4Within(p, left1, left2, k - 1, p.n);
      WithinHeaderAppend(p, NoCrossing3(p, left1, left2, k - 1), NoCrossing4(p, left1, left2, k - 1, p.n));
    }
  }

  lemma {:induction false} NoCrossing2Within(p: Predicate, left1: int, k: int)
    requires p.Index(left1) && left1 + 1 <= k <= p.n
    ensures WithinHeader(p, NoCrossing2(p, left1, k))
    decreases k
  {
    if k > left1 + 1 {
      NoCrossing2Within(p, left1, k - 1);
      NoCrossing3Within(p, left1, k - 1, p.n);
      WithinHeaderAppend(p, NoCrossing2(p, left1, k - 1), NoCrossing3(p, left1, k - 1, p.n));
    }
  }

  lemma {:induction false} NoCrossing1Within(p: Predicate, k: nat)
    requires k <= p.n
    ensures WithinHeader(p, NoCrossing1(p, k))
  {
    if k > 0 {
      NoCrossing1Within(p, k - 1);
      NoCrossing2Within(p, k - 1, p.n);
      WithinHeaderAppend(p, NoCrossing1(p, k - 1), NoCrossing2(p, k - 1, p.n));
    }
  }

  lemma WithinHeaderAppend(p: Predicate, a: seq<Clause>, b: seq<Clause>)
    requires WithinHeader(p, a) && WithinHeader(p, b)
    ensures WithinHeader(p, a + b)
  {
    forall k, i | 0 <= k < |a + b| && 0 <= i < |(a + b)[k]|
      ensures 1 <= Abs((a + b)[k][i]) <= p.CMax()
    {
      if k < |a| {
        assert (a + b)[k] == a[k];
      } else {
        assert (a + b)[k] == b[k - |a|];
      }
    }
  }
}
