/**
 * The reduction of the wiring problem to CNF (class `Cnf` of wiring.py).
 *
 * The five clause families are first given as functions of the numbering
 * and the connectivity matrix, one function per loop of the source, each
 * returning the clauses of the first k iterations of its loop; then the
 * class `Cnf` builds the same list by appending to its clause list in
 * nested loops, and its methods are proved to produce these functions.
 */
module Encoding {
  import opened Variables
  import opened Clauses

  type Matrix = seq<seq<int>>

  datatype EncodeError =
    | EmptyInstance                       // the instance has no row
    | IndexOutOfRange(row: nat, col: nat) // row `row` is shorter than n
    | NotZeroOrOne(row: nat, col: nat)    // entry (row, col) is neither 0 nor 1

  datatype Outcome = Pass | Fail(error: EncodeError)

  /** Entry (i, j) exists and is 0 or 1. */
  predicate ValidEntry(m: Matrix, i: nat, j: nat)
    requires i < |m|
  {
    j < |m[i]| && (m[i][j] == 0 || m[i][j] == 1)
  }

  /** Every entry of the leading |m| x |m| square is 0 or 1. */
  predicate Binary(m: Matrix) {
    forall i, j :: 0 <= i < |m| && 0 <= j < |m| ==> ValidEntry(m, i, j)
  }

  /** (i, j) is, in row-major order, the first entry of the square that is not valid. */
  predicate FirstInvalid(m: Matrix, i: nat, j: nat) {
    i < |m| && j < |m| && !ValidEntry(m, i, j) &&
    (forall a, b :: 0 <= a < |m| && 0 <= b < |m| && (a < i || (a == i && b < j)) ==> ValidEntry(m, a, b))
  }

  /** The error singleton generation raises at the first invalid entry (i, j). */
  function EntryError(m: Matrix, i: nat, j: nat): EncodeError
    requires i < |m|
  {
    if j < |m[i]| then NotZeroOrOne(i, j) else IndexOutOfRange(i, j)
  }

  // ---------------------------------------------------------------------
  // Singleton: c(i, j) is fixed to entry (i, j) of the matrix.

  function SingletonClause(p: Predicate, m: Matrix, i: nat, j: nat): Clause
    requires |m| == p.n && p.Index(i) && p.Index(j) && ValidEntry(m, i, j)
  {
    if m[i][j] == 0 then [-p.C(i, j)] else [p.C(i, j)]
  }

  /** Row i, columns 0 .. j-1. */
  function Singleton2(p: Predicate, m: Matrix, i: nat, j: nat): (r: seq<Clause>)
    requires |m| == p.n && p.Index(i) && j <= p.n
    requires forall b :: 0 <= b < j ==> ValidEntry(m, i, b)
  {
    if j == 0 then [] else Singleton2(p, m, i, j - 1) + [SingletonClause(p, m, i, j - 1)]
  }

  /** Rows 0 .. i-1. */
  function Singleton1(p: Predicate, m: Matrix, i: nat): (r: seq<Clause>)
    requires |m| == p.n && i <= p.n
    requires forall a, b :: 0 <= a < i && 0 <= b < p.n ==> ValidEntry(m, a, b)
  {
    if i == 0 then [] else Singleton1(p, m, i - 1) + Singleton2(p, m, i - 1, p.n)
  }

  function Singleton(p: Predicate, m: Matrix): seq<Clause>
    requires |m| == p.n && Binary(m)
  {
    Singleton1(p, m, p.n)
  }

  // ---------------------------------------------------------------------
  // Existence: each component holds some left and some right position.

  function LeftExistence(p: Predicate, comp: int): Clause
    requires p.Index(comp)
  {
    seq(p.n, pos requires 0 <= pos < p.n => p.L(comp, pos))
  }

  function RightExistence(p: Predicate, comp: int): Clause
    requires p.Index(comp)
  {
    seq(p.n, pos requires 0 <= pos < p.n => p.R(comp, pos))
  }

  /** Components 0 .. k-1. */
  function Existence1(p: Predicate, k: nat): (r: seq<Clause>)
    requires k <= p.n
  {
    if k == 0 then [] else Existence1(p, k - 1) + [LeftExistence(p, k - 1), RightExistence(p, k - 1)]
  }

  function Existence(p: Predicate): seq<Clause> {
    Existence1(p, p.n)
  }

  // ---------------------------------------------------------------------
  // Uniqueness: no two components share a left (or a right) position.

  function UniquenessPair(p: Predicate, pos: int, comp1: int, comp2: int): seq<Clause>
    requires p.Index(pos) && p.Index(comp1) && p.Index(comp2)
  {
    [[-p.L(comp1, pos), -p.L(comp2, pos)], [-p.R(comp1, pos), -p.R(comp2, pos)]]
  }

  /** Position pos, component comp1, components comp2 from comp1+1 to k-1. */
  function Uniqueness3(p: Predicate, pos: int, comp1: int, k: int): (r: seq<Clause>)
    requires p.Index(pos) && p.Index(comp1) && comp1 + 1 <= k <= p.n
    decreases k
  {
    if k == comp1 + 1 then [] else Uniqueness3(p, pos, comp1, k - 1) + UniquenessPair(p, pos, comp1, k - 1)
  }

  /** Position pos, components comp1 from 0 to k-1. */
  function Uniqueness2(p: Predicate, pos: int, k: nat): (r: seq<Clause>)
    requires p.Index(pos) && k <= p.n
  {
    if k == 0 then [] else Uniqueness2(p, pos, k - 1) + Uniqueness3(p, pos, k - 1, p.n)
  }

  /** Positions 0 .. k-1. */
  function Uniqueness1(p: Predicate, k: nat): (r: seq<Clause>)
    requires k <= p.n
  {
    if k == 0 then [] else Uniqueness1(p, k - 1) + Uniqueness2(p, k - 1, p.n)
  }

  function Uniqueness(p: Predicate): seq<Clause> {
    Uniqueness1(p, p.n)
  }

  // ---------------------------------------------------------------------
  // Connection: with comp1 at left position pos1 and comp2 at right
  // position pos2, the wire (pos1, pos2) exists iff c(comp1, comp2).

  function ConnectionPair(p: Predicate, comp1: int, comp2: int, pos1: int, pos2: int): seq<Clause>
    requires p.Index(comp1) && p.Index(comp2) && p.Index(pos1) && p.Index(pos2)
  {
    [[-p.L(comp1, pos1), -p.R(comp2, pos2), -p.C(comp1, comp2), p.W(pos1, pos2)],
     [-p.L(comp1, pos1), -p.R(comp2, pos2), -p.W(pos1, pos2), p.C(comp1, comp2)]]
  }

  /** Fixed comp1, comp2, pos1; right positions pos2 from 0 to k-1. */
  function Connection4(p: Predicate, comp1: int, comp2: int, pos1: int, k: nat): (r: seq<Clause>)
    requires p.Index(comp1) && p.Index(comp2) && p.Index(pos1) && k <= p.n
  {
    if k == 0 then [] else Connection4(p, comp1, comp2, pos1, k - 1) + ConnectionPair(p, comp1, comp2, pos1, k - 1)
  }

  /** Fixed comp1, comp2; left positions pos1 from 0 to k-1. */
  function Connection3(p: Predicate, comp1: int, comp2: int, k: nat): (r: seq<Clause>)
    requires p.Index(comp1) && p.Index(comp2) && k <= p.n
  {
    if k == 0 then [] else Connection3(p, comp1, comp2, k - 1) + Connection4(p, comp1, comp2, k - 1, p.n)
  }

  /** Fixed comp1; right components comp2 from 0 to k-1. */
  function Connection2(p: Predicate, comp1: int, k: nat): (r: seq<Clause>)
    requires p.Index(comp1) && k <= p.n
  {
    if k == 0 then [] else Connection2(p, comp1, k - 1) + Connection3(p, comp1, k - 1, p.n)
  }

  /** Left components comp1 from 0 to k-1. */
  function Connection1(p: Predicate, k: nat): (r: seq<Clause>)
    requires k <= p.n
  {
    if k == 0 then [] else Connection1(p, k - 1) + Connection2(p, k - 1, p.n)
  }

  function Connection(p: Predicate): seq<Clause> {
    Connection1(p, p.n)
  }

  // ---------------------------------------------------------------------
  // No crossing: wires (left1, right1) and (left2, right2) with
  // left1 < left2 and right2 < right1 are not both drawn.

  function CrossingClause(p: Predicate, left1: int, left2: int, right2: int, right1: int): Clause
    requires p.Index(left1) && p.Index(left2) && p.Index(right2) && p.Index(right1)
  {
    [-p.W(left1, right1), -p.W(left2, right2)]
  }

  /** Fixed left1, left2, right2; right1 from right2+1 to k-1. */
  function NoCrossing4(p: Predicate, left1: int, left2: int, right2: int, k: int): (r: seq<Clause>)
    requires p.Index(left1) && p.Index(left2) && p.Index(right2) && right2 + 1 <= k <= p.n
    decreases k
  {
    if k == right2 + 1 then []
    else NoCrossing4(p, left1, left2, right2, k - 1) + [CrossingClause(p, left1, left2, right2, k - 1)]
  }

  /** Fixed left1, left2; right2 from 0 to k-1. */
  function NoCrossing3(p: Predicate, left1: int, left2: int, k: nat): (r: seq<Clause>)
    requires p.Index(left1) && p.Index(left2) && k <= p.n
  {
    if k == 0 then [] else NoCrossing3(p, left1, left2, k - 1) + NoCrossing4(p, left1, left2, k - 1, p.n)
  }

  /** Fixed left1; left2 from left1+1 to k-1. */
  function NoCrossing2(p: Predicate, left1: int, k: int): (r: seq<Clause>)
    requires p.Index(left1) && left1 + 1 <= k <= p.n
    decreases k
  {
    if k == left1 + 1 then [] else NoCrossing2(p, left1, k - 1) + NoCrossing3(p, left1, k - 1, p.n)
  }

  /** left1 from 0 to k-1. */
  function NoCrossing1(p: Predicate, k: nat): (r: seq<Clause>)
    requires k <= p.n
  {
    if k == 0 then [] else NoCrossing1(p, k - 1) + NoCrossing2(p, k - 1, p.n)
  }

  function NoCrossing(p: Predicate): seq<Clause> {
    NoCrossing1(p, p.n)
  }

  // ---------------------------------------------------------------------

  /** The clause list encode produces for a binary matrix, families in the source's order. */
  function Encoded(p: Predicate, m: Matrix): seq<Clause>
    requires |m| == p.n && Binary(m)
  {
    Singleton(p, m) + Existence(p) + Uniqueness(p) + Connection(p) + NoCrossing(p)
  }

  /**
   * One row of the instance file as read: the line's last character (its
   * line terminator) is dropped, 'f' is 0 and every other character is 1.
   */
  function RowOfLine(line: string): (row: seq<int>)
    ensures |row| == if |line| == 0 then 0 else |line| - 1
    ensures forall k :: 0 <= k < |row| ==> (row[k] == 0 <==> line[k] == 'f') && (row[k] == 0 || row[k] == 1)
  {
    var body := if |line| == 0 then line else line[..|line| - 1];
    seq(|body|, k requires 0 <= k < |body| => if body[k] == 'f' then 0 else 1)
  }

  /** The outcome of reading an instance: its rows, or why it was refused. */
  datatype ReadResult = Read(rows: Matrix) | Refused(error: EncodeError)

  /** The matrix read from the instance's lines; an instance without rows is refused. */
  function ReadMatrix(lines: seq<string>): (m: ReadResult)
    ensures m.Read? <==> |lines| != 0
    ensures m.Read? ==> |m.rows| == |lines| && forall i :: 0 <= i < |lines| ==> m.rows[i] == RowOfLine(lines[i])
  {
    if |lines| == 0 then Refused(EmptyInstance)
    else Read(seq(|lines|, i requires 0 <= i < |lines| => RowOfLine(lines[i])))
  }

  /**
   * Lines that each hold n characters and a terminator, n >= 1 of them,
   * read into an n x n binary matrix; the characters of a line give its row.
   */
  lemma ReadSquare(lines: seq<string>)
    requires |lines| != 0 && forall i :: 0 <= i < |lines| ==> |lines[i]| == |lines| + 1
    ensures ReadMatrix(lines).Read? && |ReadMatrix(lines).rows| == |lines| && Binary(ReadMatrix(lines).rows)
  {
    var m := ReadMatrix(lines).rows;
    forall i, j | 0 <= i < |m| && 0 <= j < |m| ensures ValidEntry(m, i, j) {
      assert m[i] == RowOfLine(lines[i]);
    }
  }

  /**
   * A last line without a terminator loses a real character: the second
   * row of "11\n", "f1" is [0], so the square is not binary and encoding
   * stops at entry (1, 1) as a short row.
   */
  lemma UnterminatedLastLine()
    ensures var m := ReadMatrix(["11\n", "f1"]);
      m.Read? && m.rows == [[1, 1], [0]] && FirstInvalid(m.rows, 1, 1) && EntryError(m.rows, 1, 1) == IndexOutOfRange(1, 1)
  {
    var m := ReadMatrix(["11\n", "f1"]);
    assert m.rows[0] == RowOfLine("11\n") == [1, 1];
    assert m.rows[1] == RowOfLine("f1") == [0];
    assert forall a, b :: 0 <= a < 2 && 0 <= b < 2 && (a < 1 || (a == 1 && b < 1)) ==> ValidEntry(m.rows, a, b);
  }

  /** The line without its terminator: a final '\n' is dropped and nothing else. */
  function Unterminated(line: string): (body: string)
    ensures body <= line && |line| - 1 <= |body|
    ensures |body| == |line| <==> line == [] || line[|line| - 1] != '\n'
  {
    if |line| != 0 && line[|line| - 1] == '\n' then line[..|line| - 1] else line
  }

  /** The row rule with only a real terminator dropped. */
  function RowOfLineIntended(line: string): (row: seq<int>)
    ensures |row| == |Unterminated(line)|
    ensures forall k :: 0 <= k < |row| ==> (row[k] == 0 <==> line[k] == 'f') && (row[k] == 0 || row[k] == 1)
  {
    var body := Unterminated(line);
    seq(|body|, k requires 0 <= k < |body| => if body[k] == 'f' then 0 else 1)
  }

  /** The intended reader: as ReadMatrix, with RowOfLineIntended for each line. */
  function ReadMatrixIntended(lines: seq<string>): (m: ReadResult)
    ensures m.Read? <==> |lines| != 0
    ensures m.Read? ==> |m.rows| == |lines| && forall i :: 0 <= i < |lines| ==> m.rows[i] == RowOfLineIntended(lines[i])
  {
    if |lines| == 0 then Refused(EmptyInstance)
    else Read(seq(|lines|, i requires 0 <= i < |lines| => RowOfLineIntended(lines[i])))
  }

  /** n characters, then either a terminator or the end of the file. */
  predicate LineOfWidth(line: string, n: nat) {
    (|line| == n + 1 && line[n] == '\n') || (|line| == n && (n == 0 || line[n - 1] != '\n'))
  }

  /**
   * With the intended rule, n >= 1 lines of n characters give an n x n
   * binary matrix whether or not the last line is terminated.
   */
  lemma ReadSquareIntended(lines: seq<string>)
    requires |lines| != 0 && forall i :: 0 <= i < |lines| ==> LineOfWidth(lines[i], |lines|)
    ensures ReadMatrixIntended(lines).Read? && |ReadMatrixIntended(lines).rows| == |lines|
    ensures Binary(ReadMatrixIntended(lines).rows)
  {
    var m := ReadMatrixIntended(lines).rows;
    forall i, j | 0 <= i < |m| && 0 <= j < |m| ensures ValidEntry(m, i, j) {
      assert m[i] == RowOfLineIntended(lines[i]);
    }
  }

  /** On the same two lines the intended reader gives the full square. */
  lemma UnterminatedLastLineIntended()
    ensures ReadMatrixIntended(["11\n", "f1"]) == Read([[1, 1], [0, 1]])
  {
    var m := ReadMatrixIntended(["11\n", "f1"]);
    assert m.rows[0] == RowOfLineIntended("11\n") == [1, 1];
    assert m.rows[1] == RowOfLineIntended("f1") == [0, 1];
  }

  /** Rows 0 .. i-1 valid and row i valid make rows 0 .. i valid. */
  lemma RowsValidStep(m: Matrix, i: nat)
    requires i < |m|
    requires forall a, b :: 0 <= a < i && 0 <= b < |m| ==> ValidEntry(m, a, b)
    requires forall b :: 0 <= b < |m| ==> ValidEntry(m, i, b)
    ensures forall a, b :: 0 <= a < i + 1 && 0 <= b < |m| ==> ValidEntry(m, a, b)
  {
  }

  /** An invalid entry (i, j) after valid rows 0 .. i-1 and valid entries 0 .. j-1 of row i is the first. */
  lemma FirstInvalidAt(m: Matrix, i: nat, j: nat)
    requires i < |m| && j < |m| && !ValidEntry(m, i, j)
    requires forall a, b :: 0 <= a < i && 0 <= b < |m| ==> ValidEntry(m, a, b)
    requires forall b :: 0 <= b < j ==> ValidEntry(m, i, b)
    ensures FirstInvalid(m, i, j)
  {
  }

  // ---------------------------------------------------------------------

  lemma AppendAssoc<T>(a: seq<T>, b: seq<T>, c: seq<T>)
    ensures a + b + c == a + (b + c)
  {
  }

  class Cnf {
    const matrix: Matrix
    const n: nat
    const preds: Predicate
    var clauses: seq<Clause>

    ghost predicate Valid() {
      n == |matrix| && n != 0 && preds == Predicate(n)
    }

    /** The instance once its lines are read into a matrix, with no clause yet. */
    constructor (m: Matrix)
      requires |m| != 0
      ensures Valid() && matrix == m && clauses == []
    {
      matrix := m;
      n := |m|;
      preds := Predicate(|m|);
      clauses := [];
    }

    /** Appends one clause. */
    method Append(cl: Clause)
      modifies this
      ensures clauses == old(clauses) + [cl]
    {
      clauses := clauses + [cl];
    }

    /** Appends two clauses, one after the other. */
    method AppendTwo(cl1: Clause, cl2: Clause)
      modifies this
      ensures clauses == old(clauses) + [cl1, cl2]
    {
      Append(cl1);
      Append(cl2);
      AppendAssoc(old(clauses), [cl1], [cl2]);
    }

    /**
     * Adds the five families in order. A matrix with an entry that is not 0
     * or 1, or a row shorter than n, stops the encoding at the first such
     * entry with the singleton clauses before it already added.
     */
    method Encode() returns (outcome: Outcome)
      requires Valid() && clauses == []
      modifies this
      ensures outcome.Pass? <==> Binary(matrix)
      ensures outcome.Pass? ==> clauses == Encoded(preds, matrix)
      ensures outcome.Fail? ==>
                exists i: nat, j: nat :: FirstInvalid(matrix, i, j) && outcome.error == EntryError(matrix, i, j) &&
                  clauses == Singleton1(preds, matrix, i) + Singleton2(preds, matrix, i, j)
    {
      outcome := SingletonClauses();
      if outcome.Fail? {
        return;
      }
      ExistenceClauses();
      UniquenessClauses();
      ConnectionClauses();
      NoCrossingClauses();
    }

    method SingletonClauses() returns (outcome: Outcome)
      requires Valid()
      modifies this
      ensures outcome.Pass? <==> Binary(matrix)
      ensures outcome.Pass? ==> clauses == old(clauses) + Singleton(preds, matrix)
      ensures outcome.Fail? ==>
                exists i: nat, j: nat :: FirstInvalid(matrix, i, j) && outcome.error == EntryError(matrix, i, j) &&
                  clauses == old(clauses) + (Singleton1(preds, matrix, i) + Singleton2(preds, matrix, i, j))
    {
      var i := 0;
      while i < n
        invariant 0 <= i <= n
        invariant forall a, b :: 0 <= a < i && 0 <= b < n ==> ValidEntry(matrix, a, b)
        invariant clauses == old(clauses) + Singleton1(preds, matrix, i)
      {
        ghost var col;
        var failure;
        failure, col := SingletonRow(i);
        if failure.Some? {
          FirstInvalidAt(matrix, i, col);
          AppendAssoc(old(clauses), Singleton1(preds, matrix, i), Singleton2(preds, matrix, i, col));
          return Fail(failure.value);
        }
        AppendAssoc(old(clauses), Singleton1(preds, matrix, i), Singleton2(preds, matrix, i, n));
        RowsValidStep(matrix, i);
        i := i + 1;
      }
      return Pass;
    }

    /**
     * The singleton clauses of row i, or the error at the first entry of the
     * row that is missing or neither 0 nor 1, with the clauses before it added.
     */
    method SingletonRow(i: nat) returns (failure: Option<EncodeError>, ghost col: nat)
      requires Valid() && i < n
      modifies this
      ensures failure.None? ==> (forall b :: 0 <= b < n ==> ValidEntry(matrix, i, b)) &&
                                clauses == old(clauses) + Singleton2(preds, matrix, i, n)
      ensures failure.Some? ==> col < n && !ValidEntry(matrix, i, col) && failure.value == EntryError(matrix, i, col) &&
                                (forall b :: 0 <= b < col ==> ValidEntry(matrix, i, b)) &&
                                clauses == old(clauses) + Singleton2(preds, matrix, i, col)
    {
      var j := 0;
      while j < n
        invariant 0 <= j <= n
        invariant forall b :: 0 <= b < j ==> ValidEntry(matrix, i, b)
        invariant clauses == old(clauses) + Singleton2(preds, matrix, i, j)
      {
        if j >= |matrix[i]| {
          return Some(IndexOutOfRange(i, j)), j;
        }
        if matrix[i][j] == 0 {
          Append([-preds.C(i, j)]);
        } else if matrix[i][j] == 1 {
          Append([preds.C(i, j)]);
        } else {
          return Some(NotZeroOrOne(i, j)), j;
        }
        j := j + 1;
      }
      return None, 0;
    }

    method ExistenceClauses()
      requires Valid()
      modifies this
      ensures clauses == old(clauses) + Existence(preds)
    {
      for comp := 0 to n
        invariant clauses == old(clauses) + Existence1(preds, comp)
      {
        AppendTwo(LeftExistence(preds, comp), RightExistence(preds, comp));
        AppendAssoc(old(clauses), Existence1(preds, comp), [LeftExistence(preds, comp), RightExistence(preds, comp)]);
      }
    }

    method UniquenessClauses()
      requires Valid()
      modifies this
      ensures clauses == old(clauses) + Uniqueness(preds)
    {
      for pos := 0 to n
        invariant clauses == old(clauses) + Uniqueness1(preds, pos)
      {
        UniquenessOfPosition(pos);
        AppendAssoc(old(clauses), Uniqueness1(preds, pos), Uniqueness2(preds, pos, n));
      }
    }

    /** The two inner loops of the uniqueness family, for one position. */
    method UniquenessOfPosition(pos: nat)
      requires Valid() && pos < n
      modifies this
      ensures clauses == old(clauses) + Uniqueness2(preds, pos, n)
    {
      for comp1 := 0 to n
        invariant clauses == old(clauses) + Uniqueness2(preds, pos, comp1)
      {
        UniquenessOfComponent(pos, comp1);
        AppendAssoc(old(clauses), Uniqueness2(preds, pos, comp1), Uniqueness3(preds, pos, comp1, n));
      }
    }

    /** The innermost loop of the uniqueness family: comp1 against every later component. */
    method UniquenessOfComponent(pos: nat, comp1: nat)
      requires Valid() && pos < n && comp1 < n
      modifies this
      ensures clauses == old(clauses) + Uniqueness3(preds, pos, comp1, n)
    {
      for comp2 := comp1 + 1 to n
        invariant clauses == old(clauses) + Uniqueness3(preds, pos, comp1, comp2)
      {
        AppendTwo([-preds.L(comp1, pos), -preds.L(comp2, pos)], [-preds.R(comp1, pos), -preds.R(comp2, pos)]);
        AppendAssoc(old(clauses), Uniqueness3(preds, pos, comp1, comp2), UniquenessPair(preds, pos, comp1, comp2));
      }
    }

    method ConnectionClauses()
      requires Valid()
      modifies this
      ensures clauses == old(clauses) + Connection(preds)
    {
      for comp1 := 0 to n
        invariant clauses == old(clauses) + Connection1(preds, comp1)
      {
        ConnectionsOfComponent(comp1);
        AppendAssoc(old(clauses), Connection1(preds, comp1), Connection2(preds, comp1, n));
      }
    }

    /** The three inner loops of the connection family, for one left component. */
    method ConnectionsOfComponent(comp1: nat)
      requires Valid() && comp1 < n
      modifies this
      ensures clauses == old(clauses) + Connection2(preds, comp1, n)
    {
      for comp2 := 0 to n
        invariant clauses == old(clauses) + Connection2(preds, comp1, comp2)
      {
        ConnectionsOfPair(comp1, comp2);
        AppendAssoc(old(clauses), Connection2(preds, comp1, comp2), Connection3(preds, comp1, comp2, n));
      }
    }

    /** The two inner loops of the connection family, for one pair of components. */
    method ConnectionsOfPair(comp1: nat, comp2: nat)
      requires Valid() && comp1 < n && comp2 < n
      modifies this
      ensures clauses == old(clauses) + Connection3(preds, comp1, comp2, n)
    {
      for pos1 := 0 to n
        invariant clauses == old(clauses) + Connection3(preds, comp1, comp2, pos1)
      {
        ConnectionsAtLeft(comp1, comp2, pos1);
        AppendAssoc(old(clauses), Connection3(preds, comp1, comp2, pos1), Connection4(preds, comp1, comp2, pos1, n));
      }
    }

    /** The innermost loop of the connection family: every right position for one left position. */
    method ConnectionsAtLeft(comp1: nat, comp2: nat, pos1: nat)
      requires Valid() && comp1 < n && comp2 < n && pos1 < n
      modifies this
      ensures clauses == old(clauses) + Connection4(preds, comp1, comp2, pos1, n)
    {
      for pos2 := 0 to n
        invariant clauses == old(clauses) + Connection4(preds, comp1, comp2, pos1, pos2)
      {
        AppendTwo([-preds.L(comp1, pos1), -preds.R(comp2, pos2), -preds.C(comp1, comp2), preds.W(pos1, pos2)],
                  [-preds.L(comp1, pos1), -preds.R(comp2, pos2), -preds.W(pos1, pos2), preds.C(comp1, comp2)]);
        AppendAssoc(old(clauses), Connection4(preds, comp1, comp2, pos1, pos2), ConnectionPair(preds, comp1, comp2, pos1, pos2));
      }
    }

    method NoCrossingClauses()
      requires Valid()
      modifies this
      ensures clauses == old(clauses) + NoCrossing(preds)
    {
      for left1 := 0 to n
        invariant clauses == old(clauses) + NoCrossing1(preds, left1)
      {
        NoCrossingOfLeft(left1);
        AppendAssoc(old(clauses), NoCrossing1(preds, left1), NoCrossing2(preds, left1, n));
      }
    }

    /** The three inner loops of the no-crossing family, for one left position left1. */
    method NoCrossingOfLeft(left1: nat)
      requires Valid() && left1 < n
      modifies this
      ensures clauses == old(clauses) + NoCrossing2(preds, left1, n)
    {
      for left2 := left1 + 1 to n
        invariant clauses == old(clauses) + NoCrossing2(preds, left1, left2)
      {
        NoCrossingOfLefts(left1, left2);
        AppendAssoc(old(clauses), NoCrossing2(preds, left1, left2), NoCrossing3(preds, left1, left2, n));
      }
    }

    /** The two inner loops of the no-crossing family, for one pair of left positions. */
    method NoCrossingOfLefts(left1: nat, left2: nat)
      requires Valid() && left1 < n && left2 < n
      modifies this
      ensures clauses == old(clauses) + NoCrossing3(preds, left1, left2, n)
    {
      for right2 := 0 to n
        invariant clauses == old(clauses) + NoCrossing3(preds, left1, left2, right2)
      {
        NoCrossingOfRight(left1, left2, right2);
        AppendAssoc(old(clauses), NoCrossing3(preds, left1, left2, right2), NoCrossing4(preds, left1, left2, right2, n));
      }
    }

    /** The innermost loop of the no-crossing family: every right1 beyond right2. */
    method NoCrossingOfRight(left1: nat, left2: nat, right2: nat)
      requires Valid() && left1 < n && left2 < n && right2 < n
      modifies this
      ensures clauses == old(clauses) + NoCrossing4(preds, left1, left2, right2, n)
    {
      for right1 := right2 + 1 to n
        invariant clauses == old(clauses) + NoCrossing4(preds, left1, left2, right2, right1)
      {
        Append([-preds.W(left1, right1), -preds.W(left2, right2)]);
        AppendAssoc(old(clauses), NoCrossing4(preds, left1, left2, right2, right1), [CrossingClause(preds, left1, left2, right2, right1)]);
      }
    }
  }
}
