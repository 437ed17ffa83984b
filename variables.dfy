/**
 * The variable numbering of the wiring encoding (class `Predicate` of wiring.py).
 *
 * For `n` components and `n` positions per side, four families of boolean
 * variables are numbered as DIMACS ids, laid out in the order l, r, w, c:
 *   l(component, position)   ids n*position + component + 1
 *   r(component, position)   ids leftMax + n*position + component + 1
 *   w(leftPos, rightPos)     ids rightMax + n*leftPos + rightPos + 1
 *   c(leftComp, rightComp)   ids wMax + n*leftComp + rightComp + 1
 * The bounds leftMax, rightMax, wMax and cMax are those the constructor
 * computes; each of the last three leaves one id unused.
 */
module Variables {

  datatype Option<T> = None | Some(value: T)

  /** The four families of variables. */
  datatype Kind = Left | Right | Wire | Connected

  /**
   * A variable named by its family and its two indices, in the order the
   * numbering function of that family takes them: (component, position) for
   * Left and Right, (leftPos, rightPos) for Wire, (leftComp, rightComp) for
   * Connected.
   */
  datatype Variable = Variable(kind: Kind, first: int, second: int)

  /** Quotient and remainder of an index below n*n. */
  lemma SplitIndex(n: nat, t: int)
    requires 0 <= t < n * n
    ensures n > 0
    ensures 0 <= t / n < n && 0 <= t % n < n
    ensures n * (t / n) + t % n == t
  {
    if n == 0 {
      assert false;
    }
  }

  /** A multiple n*d of a nonzero integer d is at least n away from 0. */
  lemma MulAway(n: nat, d: int)
    ensures d >= 1 ==> n * d >= n
    ensures d <= -1 ==> n * d + n <= 0
  {
    if d >= 1 {
      assert n * d == n * (d - 1) + n;
    } else if d <= -1 {
      assert n * d == n * (d + 1) - n;
    }
  }

  /** The quotient and remainder by n of n*q + r, with r below n, are q and r. */
  lemma DivModUnique(n: nat, x: int, q: int, r: int)
    requires n > 0 && x == n * q + r && 0 <= r < n
    ensures x / n == q && x % n == r
  {
    var q', r' := x / n, x % n;
    assert n * q' + r' == x;
    assert n * (q - q') == r' - r by {
      assert n * (q - q') == n * q - n * q';
    }
    MulAway(n, q - q');
  }

  /** n*a + b with a and b below n is an index below n*n, and it splits back into a and b. */
  lemma JoinIndex(n: nat, a: int, b: int)
    requires 0 <= a < n && 0 <= b < n
    ensures 0 <= n * a + b < n * n
    ensures (n * a + b) / n == a && (n * a + b) % n == b
  {
    MulAway(n, a);
    MulAway(n, n - 1 - a);
    assert n * a + n * (n - 1 - a) + n == n * n by {
      assert n * a + n * (n - 1 - a) == n * (n - 1);
    }
    DivModUnique(n, n * a + b, a, b);
  }

  datatype Predicate = Predicate(n: nat) {

    /** Largest id of the l family as the constructor records it (wiring.py line 8). */
    function LeftMax(): nat { n * n }

    /** Largest id of the r band as recorded (line 9); one above the largest id r produces. */
    function RightMax(): nat { 1 + n * n + LeftMax() }

    /** Largest id of the w band as recorded (line 10); one above the largest id w produces. */
    function WMax(): nat { 1 + RightMax() + n * n }

    /** Largest id of the c band as recorded (line 11), and the variable count of the header. */
    function CMax(): nat { 1 + WMax() + n * n }

    /** A valid component or position index. */
    predicate Index(x: int) { 0 <= x < n }

    /** Every argument is a valid index, i.e. lies in [0, n). */
    predicate InRange(args: seq<int>)
      ensures InRange(args) <==> forall i :: 0 <= i < |args| ==> 0 <= args[i] < n
    {
      if args == [] then true
      else if args[0] >= n || args[0] < 0 then false
      else InRange(args[1..])
    }

    /** Id of "component occupies left position". */
    function L(component: int, position: int): (lit: int)
      requires Index(component) && Index(position)
      ensures 1 <= lit <= LeftMax()
    {
      JoinIndex(n, position, component);
      n * position + component + 1
    }

    /** Id of "component occupies right position". */
    function R(component: int, position: int): (lit: int)
      requires Index(component) && Index(position)
      ensures 1 + LeftMax() <= lit <= RightMax()
    {
      JoinIndex(n, position, component);
      LeftMax() + n * position + component + 1
    }

    /** Id of "a wire joins left position lPos and right position rPos". */
    function W(lPos: int, rPos: int): (lit: int)
      requires Index(lPos) && Index(rPos)
      ensures 1 + RightMax() <= lit <= WMax()
    {
      JoinIndex(n, lPos, rPos);
      RightMax() + n * lPos + rPos + 1
    }

    /** Id of "left component lComp is connected to right component rComp". */
    function C(lComp: int, rComp: int): (lit: int)
      requires Index(lComp) && Index(rComp)
      ensures 1 + WMax() <= lit <= CMax()
    {
      JoinIndex(n, lComp, rComp);
      WMax() + n * lComp + rComp + 1
    }

    /** The id of a variable whose indices are in range, by family. */
    function Var(v: Variable): (id: int)
      requires Index(v.first) && Index(v.second)
      ensures 1 <= id <= CMax()
    {
      match v.kind
      case Left => L(v.first, v.second)
      case Right => R(v.first, v.second)
      case Wire => W(v.first, v.second)
      case Connected => C(v.first, v.second)
    }

    /**
     * A call of one of l, r, w, c: the range assertion on entry rejects
     * arguments outside [0, n) (None); otherwise the id of the variable.
     */
    function Lookup(kind: Kind, a: int, b: int): (id: Option<int>)
      ensures id.None? <==> !(0 <= a < n && 0 <= b < n)
      ensures id.Some? ==> 1 <= id.value <= CMax() && Describe(id.value) == Some(Variable(kind, a, b))
    {
      assert [a, b][0] == a && [a, b][1] == b;
      if InRange([a, b]) then
        DescribeVar(Variable(kind, a, b));
        Some(Var(Variable(kind, a, b)))
      else None
    }

    /**
     * The inverse of the numbering: the variable an id stands for, or None
     * when no call of l, r, w or c with valid arguments produces that id.
     */
    function Describe(id: int): (v: Option<Variable>)
      ensures v.Some? ==> Index(v.value.first) && Index(v.value.second) && Var(v.value) == id
      ensures v.Some? ==> 1 <= id <= CMax() && id != RightMax() && id != WMax() && id != CMax()
    {
      if 1 <= id <= LeftMax() then
        var t := id - 1;
        SplitIndex(n, t);
        Some(Variable(Left, t % n, t / n))
      else if LeftMax() < id <= LeftMax() + n * n then
        var t := id - LeftMax() - 1;
        SplitIndex(n, t);
        Some(Variable(Right, t % n, t / n))
      else if RightMax() < id <= RightMax() + n * n then
        var t := id - RightMax() - 1;
        SplitIndex(n, t);
        Some(Variable(Wire, t / n, t % n))
      else if WMax() < id <= WMax() + n * n then
        var t := id - WMax() - 1;
        SplitIndex(n, t);
        Some(Variable(Connected, t / n, t % n))
      else None
    }

    /** Describe undoes the numbering. */
    lemma DescribeVar(v: Variable)
      requires Index(v.first) && Index(v.second)
      ensures Describe(Var(v)) == Some(v)
    {
      match v.kind
      case Left => JoinIndex(n, v.second, v.first);
      case Right => JoinIndex(n, v.second, v.first);
      case Wire => JoinIndex(n, v.first, v.second);
      case Connected => JoinIndex(n, v.first, v.second);
    }

    /** Distinct variables (of the same or of different families) get distinct ids. */
    lemma VarInjective(v1: Variable, v2: Variable)
      requires Index(v1.first) && Index(v1.second) && Index(v2.first) && Index(v2.second)
      ensures Var(v1) == Var(v2) <==> v1 == v2
    {
      DescribeVar(v1);
      DescribeVar(v2);
    }

    /** The ids the numbering produces are exactly those that Describe maps to a variable. */
    lemma ProducedIds(id: int)
      ensures (exists v: Variable :: Index(v.first) && Index(v.second) && Var(v) == id) <==> Describe(id).Some?
    {
      if exists v: Variable :: Index(v.first) && Index(v.second) && Var(v) == id {
        var v: Variable :| Index(v.first) && Index(v.second) && Var(v) == id;
        DescribeVar(v);
      }
    }

    /**
     * The ids standing for a variable form four bands, [1, n^2] (l),
     * [n^2+1, 2n^2] (r), [2n^2+2, 3n^2+1] (w) and [3n^2+3, 4n^2+2] (c).
     */
    lemma Bands(id: int)
      ensures var s := n * n;
        Describe(id).Some? <==>
          (1 <= id <= s) || (s + 1 <= id <= 2 * s) ||
          (2 * s + 2 <= id <= 3 * s + 1) || (3 * s + 3 <= id <= 4 * s + 2)
    {
    }

    /**
     * The recorded bounds: cMax = 4n^2 + 3 is the header's variable count,
     * and the three ids 2n^2+1, 3n^2+2 and 4n^2+3 stand for no variable.
     */
    lemma Layout()
      ensures var s := n * n;
        LeftMax() == s && RightMax() == 2 * s + 1 && WMax() == 3 * s + 2 && CMax() == 4 * s + 3
      ensures Describe(RightMax()).None? && Describe(WMax()).None? && Describe(CMax()).None?
      ensures Describe(0).None? && Describe(CMax() + 1).None?
    {
    }
  }
}
