/**
 * Reading a pairing back from a solver's answer (class `Decoder` of
 * wiring.py). The answer is the list of literals the solver reports; a
 * variable is true when its id occurs in the list. Two scans visit every
 * (component, position) in position-major, component-minor order: the first
 * opens an entry [comp + 1] for each true l variable, the second extends
 * the entries in turn with comp + 1 for each true r variable.
 */
module Decoding {
  import opened Variables

  datatype DecodeError =
    | NoLiterals                  // the answer holds no literal at all
    | UnmatchedRight(comp: int)   // an r variable found with every entry already extended (1-based)

  datatype Result<T> = Ok(value: T) | Err(error: DecodeError)

  /** Left or Right: the two families the scans look at. */
  predicate Side(kind: Kind) { kind == Left || kind == Right }

  /** The id of "component sits at position" on the given side. */
  function SideVar(p: Predicate, kind: Kind, comp: int, pos: int): (id: int)
    requires Side(kind) && p.Index(comp) && p.Index(pos)
    ensures id > 0
  {
    p.Var(Variable(kind, comp, pos))
  }

  /** The components 0 .. k-1 whose variable at position pos is true, in increasing order. */
  function Row(p: Predicate, lits: seq<int>, kind: Kind, pos: int, k: nat): (cs: seq<int>)
    requires Side(kind) && p.Index(pos) && k <= p.n
    ensures |cs| <= k && forall i :: 0 <= i < |cs| ==> 0 <= cs[i] < k
  {
    if k == 0 then []
    else Row(p, lits, kind, pos, k - 1) + (if SideVar(p, kind, k - 1, pos) in lits then [k - 1] else [])
  }

  /** A component is in the row exactly when it is below k and its variable is true. */
  lemma {:induction false} RowMembers(p: Predicate, lits: seq<int>, kind: Kind, pos: int, k: nat)
    requires Side(kind) && p.Index(pos) && k <= p.n
    ensures forall c :: c in Row(p, lits, kind, pos, k) <==> 0 <= c < k && SideVar(p, kind, c, pos) in lits
  {
    if k > 0 {
      RowMembers(p, lits, kind, pos, k - 1);
    }
  }

  predicate Increasing(cs: seq<int>) {
    forall i, j :: 0 <= i < j < |cs| ==> cs[i] < cs[j]
  }

  /** The row lists its components in increasing order. */
  lemma {:induction false} RowIncreasing(p: Predicate, lits: seq<int>, kind: Kind, pos: int, k: nat)
    requires Side(kind) && p.Index(pos) && k <= p.n
    ensures Increasing(Row(p, lits, kind, pos, k))
  {
    if k > 0 {
      RowIncreasing(p, lits, kind, pos, k - 1);
      var cs, before := Row(p, lits, kind, pos, k), Row(p, lits, kind, pos, k - 1);
      forall i, j | 0 <= i < j < |cs| ensures cs[i] < cs[j] {
        assert cs[i] == before[i];
        if j >= |before| {
          assert cs[j] == k - 1;
        }
      }
    }
  }

  /** The components met by a scan over the positions 0 .. k-1, in the order the scan meets them. */
  function Scan(p: Predicate, lits: seq<int>, kind: Kind, k: nat): (cs: seq<int>)
    requires Side(kind) && k <= p.n
    ensures forall i :: 0 <= i < |cs| ==> p.Index(cs[i])
  {
    if k == 0 then []
    else Scan(p, lits, kind, k - 1) + Row(p, lits, kind, k - 1, p.n)
  }

  /**
   * What decoding produces: no literals is an error; otherwise one entry
   * per true l variable, the first entries extended by the r variables in
   * scan order, and an error when there are more r variables than entries.
   */
  function Pairing(p: Predicate, lits: seq<int>): (r: Result<seq<seq<int>>>)
    ensures r.Ok? ==> |r.value| == |Scan(p, lits, Left, p.n)|
    ensures r.Ok? ==> forall k :: 0 <= k < |r.value| ==> 1 <= |r.value[k]| <= 2 && 1 <= r.value[k][0] <= p.n
  {
    if lits == [] then Err(NoLiterals)
    else
      var ls, rs := Scan(p, lits, Left, p.n), Scan(p, lits, Right, p.n);
      if |rs| > |ls| then Err(UnmatchedRight(rs[|ls|] + 1))
      else Ok(seq(|ls|, k requires 0 <= k < |ls| => if k < |rs| then [ls[k] + 1, rs[k] + 1] else [ls[k] + 1]))
  }

  lemma {:induction false} RowPrefix(p: Predicate, lits: seq<int>, kind: Kind, pos: int, j: nat, k: nat)
    requires Side(kind) && p.Index(pos) && j <= k <= p.n
    ensures Row(p, lits, kind, pos, j) <= Row(p, lits, kind, pos, k)
    decreases k
  {
    if j < k {
      RowPrefix(p, lits, kind, pos, j, k - 1);
    }
  }

  lemma {:induction false} ScanPrefix(p: Predicate, lits: seq<int>, kind: Kind, j: nat, k: nat)
    requires Side(kind) && j <= k <= p.n
    ensures Scan(p, lits, kind, j) <= Scan(p, lits, kind, k)
    decreases k
  {
    if j < k {
      ScanPrefix(p, lits, kind, j, k - 1);
    }
  }

  /** Part of the scan up to and including (comp, pos) is a prefix of the whole scan. */
  lemma ScanSoFar(p: Predicate, lits: seq<int>, kind: Kind, pos: int, comp: int)
    requires Side(kind) && p.Index(pos) && p.Index(comp)
    ensures Scan(p, lits, kind, pos) + Row(p, lits, kind, pos, comp + 1) <= Scan(p, lits, kind, p.n)
  {
    var before, row, whole := Scan(p, lits, kind, pos), Row(p, lits, kind, pos, comp + 1), Row(p, lits, kind, pos, p.n);
    RowPrefix(p, lits, kind, pos, comp + 1, p.n);
    ScanPrefix(p, lits, kind, pos + 1, p.n);
    PrefixAfter(before, row, whole, Scan(p, lits, kind, p.n));
  }

  /** A prefix of the part after a common beginning gives a prefix of the whole. */
  lemma PrefixAfter(before: seq<int>, row: seq<int>, whole: seq<int>, all: seq<int>)
    requires row <= whole && before + whole <= all
    ensures before + row <= all
  {
    assert before + row == (before + whole)[..|before| + |row|] by {
      assert row == whole[..|row|];
    }
  }

  /** When only component s is true at position pos, the row holds s alone once the scan has passed it. */
  lemma {:induction false} RowOne(p: Predicate, lits: seq<int>, kind: Kind, pos: int, s: int, k: nat)
    requires Side(kind) && p.Index(pos) && p.Index(s) && k <= p.n
    requires forall comp :: 0 <= comp < p.n ==> (SideVar(p, kind, comp, pos) in lits <==> comp == s)
    ensures Row(p, lits, kind, pos, k) == if s < k then [s] else []
  {
    if k > 0 {
      RowOne(p, lits, kind, pos, s, k - 1);
    }
  }

  /** One step of the scan: the prefix met so far grows by comp exactly when comp's variable is true. */
  lemma ScanStep(p: Predicate, lits: seq<int>, kind: Kind, pos: int, comp: int)
    requires Side(kind) && p.Index(pos) && p.Index(comp)
    ensures var before, after := Scan(p, lits, kind, pos) + Row(p, lits, kind, pos, comp),
                                 Scan(p, lits, kind, pos) + Row(p, lits, kind, pos, comp + 1);
      after == if SideVar(p, kind, comp, pos) in lits then before + [comp] else before
  {
  }

  /**
   * The second scan meets a true r variable for comp at pos when every entry
   * has already been extended.
   */
  predicate Overflow(p: Predicate, lits: seq<int>, pos: int, comp: int) {
    p.Index(pos) && p.Index(comp) && p.R(comp, pos) in lits &&
    |Scan(p, lits, Right, pos) + Row(p, lits, Right, pos, comp)| == |Scan(p, lits, Left, p.n)|
  }

  /**
   * An r variable met when the part of the right scan before it is as long
   * as the whole left scan: decoding fails there.
   */
  lemma Unmatched(p: Predicate, lits: seq<int>, pos: int, comp: int)
    requires lits != [] && Overflow(p, lits, pos, comp)
    ensures Pairing(p, lits) == Err(UnmatchedRight(comp + 1))
  {
    ScanStep(p, lits, Right, pos, comp);
    ScanSoFar(p, lits, Right, pos, comp);
  }

  /**
   * When exactly the variables of component sel[pos] at position pos are
   * true, the scan yields sel.
   */
  lemma {:induction false} ScanOnePerPosition(p: Predicate, lits: seq<int>, kind: Kind, sel: seq<int>, k: nat)
    requires Side(kind) && k <= p.n && |sel| == p.n
    requires forall pos :: 0 <= pos < p.n ==> p.Index(sel[pos])
    requires forall pos, comp :: 0 <= pos < p.n && 0 <= comp < p.n ==> (SideVar(p, kind, comp, pos) in lits <==> comp == sel[pos])
    ensures Scan(p, lits, kind, k) == sel[..k]
  {
    if k > 0 {
      ScanOnePerPosition(p, lits, kind, sel, k - 1);
      RowOne(p, lits, kind, k - 1, sel[k - 1], p.n);
      assert sel[..k] == sel[..k - 1] + [sel[k - 1]];
    }
  }

  /**
   * With one true l and one true r variable per position, decoding yields
   * n entries, entry k holding the left and the right component of position
   * k (1-based).
   */
  lemma DecodeOnePerPosition(p: Predicate, lits: seq<int>, lc: seq<int>, rc: seq<int>)
    requires |lc| == p.n && |rc| == p.n
    requires forall pos :: 0 <= pos < p.n ==> p.Index(lc[pos]) && p.Index(rc[pos])
    requires forall pos, comp :: 0 <= pos < p.n && 0 <= comp < p.n ==>
      (p.L(comp, pos) in lits <==> comp == lc[pos]) && (p.R(comp, pos) in lits <==> comp == rc[pos])
    ensures Pairing(p, lits) ==
      if lits == [] then Err(NoLiterals) else Ok(seq(p.n, k requires 0 <= k < p.n => [lc[k] + 1, rc[k] + 1]))
  {
    ScanOnePerPosition(p, lits, Left, lc, p.n);
    ScanOnePerPosition(p, lits, Right, rc, p.n);
    assert lc[..p.n] == lc && rc[..p.n] == rc;
    if lits != [] {
      assert Pairing(p, lits).value == seq(p.n, k requires 0 <= k < p.n => [lc[k] + 1, rc[k] + 1]);
    }
  }

  class Decoder {
    const preds: Predicate
    const n: nat
    const lits: seq<int>

    ghost predicate Valid()
      reads this
    {
      n == preds.n
    }

    /** The answer's literals, already parsed from the solver's output. */
    constructor (preds: Predicate, lits: seq<int>)
      ensures Valid() && this.preds == preds && this.lits == lits
    {
      this.preds := preds;
      this.n := preds.n;
      this.lits := lits;
    }

    /** The two scans; the entries are returned rather than printed or written. */
    method Decode() returns (res: Result<seq<seq<int>>>)
      requires Valid()
      ensures res == Pairing(preds, lits)
    {
      if lits == [] {
        return Err(NoLiterals);
      }
      var result := OpenEntries();
      res := ExtendEntries(result);
    }

    /** The first scan: an entry [comp + 1] for every true l variable. */
    method OpenEntries() returns (result: seq<seq<int>>)
      requires Valid()
      ensures var ls := Scan(preds, lits, Left, n);
        |result| == |ls| && forall k :: 0 <= k < |result| ==> result[k] == [ls[k] + 1]
    {
      result := [];
      for pos := 0 to n
        invariant Opened(result, Scan(preds, lits, Left, pos))
      {
        result := OpenRow(pos, result, Scan(preds, lits, Left, pos));
      }
    }

    /** The first scan at one left position: an entry [comp + 1] for each true l variable. */
    method OpenRow(pos: int, entries: seq<seq<int>>, ghost before: seq<int>) returns (result: seq<seq<int>>)
      requires Valid() && preds.Index(pos) && Opened(entries, before)
      ensures Opened(result, before + Row(preds, lits, Left, pos, n))
    {
      result := entries;
      for comp := 0 to n
        invariant Opened(result, before + Row(preds, lits, Left, pos, comp))
      {
        if preds.L(comp, pos) in lits {
          OpenedStep(result, before + Row(preds, lits, Left, pos, comp), comp);
          result := result + [[comp + 1]];
        }
      }
    }

    /**
     * The second scan: the entry at the running index is extended with
     * comp + 1 for every true r variable; running past the last entry is
     * the source's index error.
     */
    method ExtendEntries(entries: seq<seq<int>>) returns (res: Result<seq<seq<int>>>)
      requires Valid() && lits != []
      requires var ls := Scan(preds, lits, Left, n);
        |entries| == |ls| && forall k :: 0 <= k < |entries| ==> entries[k] == [ls[k] + 1]
      ensures res == Pairing(preds, lits)
    {
      ghost var ls := Scan(preds, lits, Left, n);
      var result := entries;
      var index := 0;
      for pos := 0 to n
        invariant Extended(result, ls, Scan(preds, lits, Right, pos), index)
      {
        var failure;
        result, index, failure := ExtendRow(pos, result, index, ls);
        if failure.Some? {
          Unmatched(preds, lits, pos, failure.value - 1);
          return Err(UnmatchedRight(failure.value));
        }
      }
      ExtendedAll(preds, lits, result, Scan(preds, lits, Right, n), index);
      return Ok(result);
    }

    /**
     * The second scan at one right position. On running past the last
     * entry it reports the (1-based) component it could not place.
     */
    method ExtendRow(pos: int, entries: seq<seq<int>>, start: int, ghost ls: seq<int>)
      returns (result: seq<seq<int>>, index: int, failure: Option<int>)
      requires Valid() && lits != [] && preds.Index(pos) && ls == Scan(preds, lits, Left, n)
      requires Extended(entries, ls, Scan(preds, lits, Right, pos), start)
      ensures failure.Some? ==> Overflow(preds, lits, pos, failure.value - 1)
      ensures failure.None? ==> Extended(result, ls, Scan(preds, lits, Right, pos + 1), index)
    {
      result, index := entries, start;
      for comp := 0 to n
        invariant Extended(result, ls, Scan(preds, lits, Right, pos) + Row(preds, lits, Right, pos, comp), index)
      {
        var overflow;
        result, index, overflow := ExtendAt(pos, comp, result, index, ls);
        if overflow {
          return result, index, Some(comp + 1);
        }
      }
      failure := None;
    }

    /** One step of the second scan, at right position pos and component comp. */
    method ExtendAt(pos: int, comp: int, entries: seq<seq<int>>, start: int, ghost ls: seq<int>)
      returns (result: seq<seq<int>>, index: int, overflow: bool)
      requires Valid() && lits != [] && preds.Index(pos) && preds.Index(comp) && ls == Scan(preds, lits, Left, n)
      requires Extended(entries, ls, Scan(preds, lits, Right, pos) + Row(preds, lits, Right, pos, comp), start)
      ensures overflow ==> Overflow(preds, lits, pos, comp)
      ensures !overflow ==> Extended(result, ls, Scan(preds, lits, Right, pos) + Row(preds, lits, Right, pos, comp + 1), index)
    {
      ghost var done := Scan(preds, lits, Right, pos) + Row(preds, lits, Right, pos, comp);
      ScanStep(preds, lits, Right, pos, comp);
      result, index, overflow := entries, start, false;
      if preds.R(comp, pos) in lits {
        if index == |result| {
          return result, index, true;
        }
        ExtendedStep(result, ls, done, index, comp);
        result := result[index := result[index] + [comp + 1]];
        index := index + 1;
      }
    }
  }

  /**
   * The state of the second scan: the first |done| entries carry their
   * right component, the others still only their left one.
   */
  ghost predicate Extended(result: seq<seq<int>>, ls: seq<int>, done: seq<int>, index: int) {
    index == |done| <= |result| == |ls| &&
    (forall k :: 0 <= k < index ==> result[k] == [ls[k] + 1, done[k] + 1]) &&
    (forall k :: index <= k < |result| ==> result[k] == [ls[k] + 1])
  }

  /** The state of the first scan: one entry [c + 1] for each component c met so far. */
  ghost predicate Opened(result: seq<seq<int>>, met: seq<int>) {
    |result| == |met| && forall k :: 0 <= k < |result| ==> result[k] == [met[k] + 1]
  }

  lemma OpenedStep(result: seq<seq<int>>, met: seq<int>, comp: int)
    requires Opened(result, met)
    ensures Opened(result + [[comp + 1]], met + [comp])
  {
  }

  lemma ExtendedStep(result: seq<seq<int>>, ls: seq<int>, done: seq<int>, index: int, comp: int)
    requires Extended(result, ls, done, index) && index < |result|
    ensures Extended(result[index := result[index] + [comp + 1]], ls, done + [comp], index + 1)
  {
    var after := result[index := result[index] + [comp + 1]];
    forall k | 0 <= k < index + 1 ensures after[k] == [ls[k] + 1, (done + [comp])[k] + 1] {
      if k < index {
        assert (done + [comp])[k] == done[k];
      }
    }
  }

  /** The second scan has run to the end without running past the last entry. */
  lemma ExtendedAll(p: Predicate, lits: seq<int>, result: seq<seq<int>>, done: seq<int>, index: int)
    requires lits != [] && done == Scan(p, lits, Right, p.n)
    requires Extended(result, Scan(p, lits, Left, p.n), done, index)
    ensures Pairing(p, lits) == Ok(result)
  {
    var ls := Scan(p, lits, Left, p.n);
    assert result == seq(|ls|, k requires 0 <= k < |ls| => if k < |done| then [ls[k] + 1, done[k] + 1] else [ls[k] + 1]);
  }
}
