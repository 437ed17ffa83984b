# Component wiring: a verified model of the SAT reduction

`wiring.py` decides how to place `n` components on the two sides of a board, each side with `n`
positions. A connectivity matrix says which left component must be wired to which right
component, and no two wires may cross. The program does not search for a placement itself. It
numbers boolean variables (`Predicate`), writes a CNF formula whose models are the valid placements
(`Cnf.encode`), and reads a placement back from a SAT solver's answer (`Decoder.decode`).

This project models those three parts in Dafny and proves what each promises.

- `variables.dfy` (module `Variables`): the numbering. It has the four maps `l`, `r`, `w` and `c`,
  the four maxima, and the range check that rejects indices outside `[0, n)`. It also has an
  inverse `Describe`, which proves the numbering injective, and the exact set of ids produced.
- `clauses.dfy` (module `Clauses`): DIMACS clauses, and what it means for a truth assignment (the
  set of true variable ids) to satisfy them.
- `encoding.dfy` (module `Encoding`): the five clause families. Each is a function that builds the
  clauses of the first `k` iterations of its source loop. Class `Cnf` holds the clause list as a
  field and appends to it in the source's nested loops. Its methods are proved to append exactly
  those functions' clauses, in the source's order. The module also holds the rule that turns an
  instance line into a matrix row.
- `counts.dfy` (module `Counts`): the number of clauses in each family and in all of them, and
  that every literal lies within the header's variable count.
- `semantics.dfy` (module `Semantics`): one if-and-only-if per family, between "the assignment
  satisfies the family" and the property the family encodes.
- `decoding.dfy` (module `Decoding`): the decoder's two scans. `Pairing` is the function that
  specifies them, and class `Decoder` does them as loops.
- `placement.dfy` (module `Placement`): the end-to-end result, built on a pigeonhole argument.
  Any assignment that satisfies the whole encoding puts exactly one component on each position,
  and each side's components form a permutation. The decoder returns those permutations pair by
  pair. The wires are exactly the matrix's connections between the components at their ends, and
  no two wires cross.

`c_max` is `4n²+3`. The maxima on wiring.py:9-11 each add 1 (`right_max = 1 + n² + left_max`,
and likewise `w_max` and `c_max`). So the produced ids fall in `[1, n²]`, `[n²+1, 2n²]`,
`[2n²+2, 3n²+1]` and `[3n²+3, 4n²+2]`, and the ids `2n²+1`, `3n²+2` and `4n²+3` name no
variable.

Inputs arrive already read:

- The instance is a sequence of lines, or the matrix made from them.
- The solver's answer is the sequence of integers on its first line.

A variable the answer lists is true. `Placement.TruthOf` is the set of positive literals the
answer lists. The decoder's membership test and that set agree on every variable id, because
every id is positive.

## Model

| member | source | states |
|---|---|---|
| Variables.Predicate.Layout | wiring.py:6-11 | The four recorded maxima are n², 2n²+1, 3n²+2 and 4n²+3. Neither the ids 2n²+1, 3n²+2 and 4n²+3 nor 0 and cMax+1 stand for a variable. |
| Variables.Predicate.InRange | wiring.py:13-17 | Holds exactly when every argument lies in [0, n). |
| Variables.Predicate.L | wiring.py:21-25 | With both indices in range, l's id lies in [1, leftMax], the band the code asserts. |
| Variables.Predicate.R | wiring.py:29-33 | r's id lies in [leftMax+1, rightMax]. |
| Variables.Predicate.W | wiring.py:37-41 | w's id lies in [rightMax+1, wMax]. |
| Variables.Predicate.C | wiring.py:45-49 | c's id lies in [wMax+1, cMax]. |
| Variables.Predicate.Var | wiring.py:21-49 | Every in-range variable of any family gets an id in [1, cMax]. |
| Variables.Predicate.Lookup | wiring.py:13-49 | A call of l, r, w or c is rejected exactly when an argument is outside [0, n). Otherwise its id is in [1, cMax] and names that variable. |
| Variables.Predicate.Describe | wiring.py:21-49 | Inverse of the numbering. Any variable it returns has in-range indices and the given id. Such ids lie in [1, cMax] and are none of rightMax, wMax and cMax. |
| Variables.Predicate.DescribeVar | wiring.py:21-49 | Describe undoes numbering for every in-range variable of every family. |
| Variables.Predicate.VarInjective | wiring.py:23-47 | Two in-range variables get the same id if and only if they are the same variable. This holds within a family and across families. |
| Variables.Predicate.ProducedIds | wiring.py:21-49 | An id is produced by some in-range call exactly when Describe maps it to a variable. |
| Variables.Predicate.Bands | wiring.py:6-49 | The produced ids are exactly [1, n²], [n²+1, 2n²], [2n²+2, 3n²+1] and [3n²+3, 4n²+2]. |
| Encoding.SingletonClause | wiring.py:122-125 | The unit clause for entry (i, j): `[-c(i,j)]` for 0 and `[c(i,j)]` for 1. What it means is proved by Semantics.SatSingleton2. |
| Encoding.Singleton2 | wiring.py:121-127 | The singleton clauses of row i, columns 0 to j-1, in column order. |
| Encoding.Singleton1 | wiring.py:120-127 | The singleton clauses of rows 0 to i-1, row after row. |
| Encoding.Singleton | wiring.py:119-127 | The whole singleton family of a binary matrix. |
| Encoding.LeftExistence | wiring.py:79 | The clause `l(comp,0) ∨ … ∨ l(comp,n-1)`. Its meaning is Semantics.SatExistenceClauses. |
| Encoding.RightExistence | wiring.py:81 | The clause `r(comp,0) ∨ … ∨ r(comp,n-1)`. |
| Encoding.Existence1 | wiring.py:77-81 | For components 0 to k-1, the l clause and then the r clause of each. |
| Encoding.Existence | wiring.py:76-81 | The whole existence family. |
| Encoding.UniquenessPair | wiring.py:88-90 | `[-l(comp1,pos), -l(comp2,pos)]`, then `[-r(comp1,pos), -r(comp2,pos)]`. Its meaning is Semantics.SatUniquenessPair. |
| Encoding.Uniqueness3 | wiring.py:86-90 | The pairs of clauses for comp2 from comp1+1 to k-1, at one position and one comp1. |
| Encoding.Uniqueness2 | wiring.py:85-90 | The uniqueness clauses of one position for comp1 from 0 to k-1. |
| Encoding.Uniqueness1 | wiring.py:84-90 | The uniqueness clauses of positions 0 to k-1. |
| Encoding.Uniqueness | wiring.py:83-90 | The whole uniqueness family. |
| Encoding.ConnectionPair | wiring.py:98-102 | The two 4-literal clauses of (comp1, comp2, pos1, pos2), the one ending in `w` first. Their meaning is Semantics.SatConnectionPair. |
| Encoding.Connection4 | wiring.py:96-102 | The connection clauses for pos2 from 0 to k-1. |
| Encoding.Connection3 | wiring.py:95-102 | The connection clauses for pos1 from 0 to k-1. |
| Encoding.Connection2 | wiring.py:94-102 | The connection clauses for comp2 from 0 to k-1. |
| Encoding.Connection1 | wiring.py:93-102 | The connection clauses for comp1 from 0 to k-1. |
| Encoding.Connection | wiring.py:92-102 | The whole connection family. |
| Encoding.CrossingClause | wiring.py:116-117 | `[-w(left1,right1), -w(left2,right2)]`. |
| Encoding.NoCrossing4 | wiring.py:114-117 | The no-crossing clauses for right1 from right2+1 to k-1. |
| Encoding.NoCrossing3 | wiring.py:113-117 | The no-crossing clauses for right2 from 0 to k-1. |
| Encoding.NoCrossing2 | wiring.py:112-117 | The no-crossing clauses for left2 from left1+1 to k-1. |
| Encoding.NoCrossing1 | wiring.py:111-117 | The no-crossing clauses for left1 from 0 to k-1. |
| Encoding.NoCrossing | wiring.py:104-117 | The whole no-crossing family. |
| Encoding.Encoded | wiring.py:62-68 | The list `encode` builds: singleton, existence, uniqueness, connection and no-crossing, in that order. Cnf.Encode is proved to produce it. Semantics.SatEncoded, Counts.EncodingCount and Counts.EncodingWithinHeader state what it means. |
| Encoding.RowOfLine | wiring.py:133 | A row has one entry per character of its line except the last. Each entry is 0 or 1, and it is 0 exactly where the character is 'f'. |
| Encoding.ReadMatrix | wiring.py:129-137 | An instance is refused exactly when it has no line. Otherwise the matrix has one row per line, read from that line. |
| Encoding.ReadSquare | wiring.py:129-137 | n ≥ 1 lines of n characters plus a terminator give an n×n binary matrix. |
| Encoding.UnterminatedLastLine | wiring.py:133 | As written, the lines "11\n" and "f1" give the rows [1,1] and [0]. The first bad entry is (1,1), reported as a short row. |
| Encoding.Unterminated | wiring.py:133 | Drops a final '\n' and nothing else. The line keeps its length exactly when it does not end in '\n'. |
| Encoding.RowOfLineIntended | wiring.py:133 | One entry per character of the line without its terminator. Each entry is 0 or 1, and it is 0 exactly where the character is 'f'. |
| Encoding.ReadMatrixIntended | wiring.py:129-137 | An instance is refused exactly when it has no line. Otherwise the matrix has one row per line, read by the intended line rule. |
| Encoding.ReadSquareIntended | wiring.py:129-137 | n ≥ 1 lines of n characters give an n×n binary matrix, each line followed by '\n' or by the end of the file. |
| Encoding.UnterminatedLastLineIntended | wiring.py:133 | The intended rule reads "11\n" and "f1" as the full square [[1,1],[0,1]]. |
| Encoding.Cnf.constructor | wiring.py:54-60 | A non-empty matrix gives n = its row count, the numbering for n, and an empty clause list. |
| Encoding.Cnf.Append | wiring.py:73-74 | The clause list grows by exactly the one clause. |
| Encoding.Cnf.AppendTwo | wiring.py:73-74 | The clause list grows by the two clauses, in order. |
| Encoding.Cnf.Encode | wiring.py:62-68 | Starts from an empty list and succeeds exactly when every entry of the n×n square exists and is 0 or 1. On success the list is singleton ++ existence ++ uniqueness ++ connection ++ no-crossing. On failure it reports the first bad entry in row-major order, as a short row or as a value other than 0 and 1, and the list holds the singleton clauses before that entry. |
| Encoding.Cnf.SingletonClauses | wiring.py:119-127 | Appends `[c(i,j)]` for 1 and `[-c(i,j)]` for 0 in row-major order, or stops at the first bad entry with the same report as Encode. |
| Encoding.Cnf.SingletonRow | wiring.py:121-127 | One row of the singleton loop either appends the row's n unit clauses after checking every entry, or stops at its first bad column with the error Encode reports, having appended the clauses of the columns before it. |
| Encoding.FirstInvalidAt | wiring.py:120-127 | A bad entry preceded only by good ones, row-major, is the first bad entry of the square. |
| Encoding.Cnf.ExistenceClauses | wiring.py:76-81 | Appends the existence family. |
| Encoding.Cnf.UniquenessClauses | wiring.py:83-90 | Appends the uniqueness family. |
| Encoding.Cnf.UniquenessOfPosition | wiring.py:85-90 | Appends the uniqueness clauses of one position (the two inner loops). |
| Encoding.Cnf.UniquenessOfComponent | wiring.py:86-90 | Appends the uniqueness clauses of one position and one comp1 (the innermost loop). |
| Encoding.Cnf.ConnectionClauses | wiring.py:92-102 | Appends the connection family. |
| Encoding.Cnf.ConnectionsOfComponent | wiring.py:94-102 | Appends the connection clauses of one left component (the three inner loops). |
| Encoding.Cnf.ConnectionsOfPair | wiring.py:95-102 | Appends the connection clauses of one pair of components (the two inner loops). |
| Encoding.Cnf.ConnectionsAtLeft | wiring.py:96-102 | Appends the connection clauses of one pair of components and one left position (the innermost loop). |
| Encoding.Cnf.NoCrossingClauses | wiring.py:104-117 | Appends the no-crossing family. |
| Encoding.Cnf.NoCrossingOfLeft | wiring.py:112-117 | Appends the no-crossing clauses of one left1 (the three inner loops). |
| Encoding.Cnf.NoCrossingOfLefts | wiring.py:113-117 | Appends the no-crossing clauses of one pair of left positions (the two inner loops). |
| Encoding.Cnf.NoCrossingOfRight | wiring.py:114-117 | Appends the no-crossing clauses of one left1, left2 and right2 (the innermost loop). |
| Counts.Singleton2Count | wiring.py:121-127 | Row i, columns below j: j clauses. |
| Counts.Singleton1Count | wiring.py:120-127 | Rows below i: i·n clauses. |
| Counts.SingletonCount | wiring.py:119-127 | n² singleton clauses. |
| Counts.Existence1Count | wiring.py:77-81 | Components below k: 2k clauses. |
| Counts.ExistenceCount | wiring.py:76-81 | 2n existence clauses. |
| Counts.Uniqueness3Count | wiring.py:86-90 | Two clauses for each comp2 in (comp1, k). |
| Counts.Uniqueness2Count | wiring.py:85-90 | Twice the number of pairs comp1 < comp2 with comp1 below k. |
| Counts.Uniqueness1Count | wiring.py:84-90 | k·n(n-1) clauses for positions below k. |
| Counts.UniquenessCount | wiring.py:83-90 | n·n(n-1) uniqueness clauses. |
| Counts.Connection4Count | wiring.py:96-102 | 2k clauses for pos2 below k. |
| Counts.Connection3Count | wiring.py:95-102 | k·2n clauses for pos1 below k. |
| Counts.Connection2Count | wiring.py:94-102 | k·n·2n clauses for comp2 below k. |
| Counts.Connection1Count | wiring.py:93-102 | k·n·n·2n clauses for comp1 below k. |
| Counts.ConnectionCount | wiring.py:92-102 | 2n⁴ connection clauses. |
| Counts.NoCrossing4Count | wiring.py:114-117 | One clause for each right1 in (right2, k). |
| Counts.NoCrossing3Count | wiring.py:113-117 | One clause per pair right2 < right1 with right2 below k. |
| Counts.NoCrossing2Count | wiring.py:112-117 | (k-left1-1)·n(n-1)/2 clauses. |
| Counts.NoCrossing1Count | wiring.py:111-117 | One clause for each pair of left pairs, over left1 below k. |
| Counts.NoCrossingCount | wiring.py:104-117 | (n(n-1)/2)² no-crossing clauses. |
| Counts.PairsFromAll | wiring.py:85-86 | Counting the pairs comp1 < comp2 by comp1 gives all n(n-1)/2 of them. |
| Counts.EncodingCount | wiring.py:62-69 | The header's clause count is n² + 2n + n·n(n-1) + 2n⁴ + (n(n-1)/2)², which depends on n only. |
| Counts.Singleton2Within | wiring.py:121-127 | The unit clauses of row i, columns below j, use only ids within the header's count. |
| Counts.Singleton1Within | wiring.py:120-127 | Same for rows below i. |
| Counts.Existence1Within | wiring.py:77-81 | The existence clauses of components below k use only ids within the header's count. |
| Counts.Uniqueness3Within | wiring.py:86-90 | The uniqueness clauses for one position and comp1, with comp2 from comp1+1 up to k, lie within the header. |
| Counts.Uniqueness2Within | wiring.py:85-90 | Same for comp1 below k. |
| Counts.Uniqueness1Within | wiring.py:84-90 | Same for positions below k. |
| Counts.Connection4Within | wiring.py:96-102 | The connection clauses for pos2 below k lie within the header. |
| Counts.Connection3Within | wiring.py:95-102 | Same for pos1 below k. |
| Counts.Connection2Within | wiring.py:94-102 | Same for comp2 below k. |
| Counts.Connection1Within | wiring.py:93-102 | Same for comp1 below k. |
| Counts.NoCrossing4Within | wiring.py:114-117 | The no-crossing clauses for right1 from right2+1 up to k lie within the header. |
| Counts.NoCrossing3Within | wiring.py:113-117 | Same for right2 below k. |
| Counts.NoCrossing2Within | wiring.py:112-117 | Same for left2 from left1+1 up to k. |
| Counts.NoCrossing1Within | wiring.py:111-117 | Same for left1 below k. |
| Counts.EncodingWithinHeader | wiring.py:69-71 | Every literal written names a variable id in [1, cMax], as the `p cnf cMax count` header declares. |
| Semantics.SatSingleton2 | wiring.py:121-127 | The singleton clauses of row i, columns below j, hold exactly when c(i,b) is true iff entry (i,b) is 1. |
| Semantics.SatSingleton1 | wiring.py:120-127 | Same for rows below i. |
| Semantics.SatSingleton | wiring.py:119-127 | The singleton clauses hold exactly when every c variable equals its matrix entry. |
| Semantics.SatExistenceClauses | wiring.py:79-81 | The l clause of a component holds iff the component holds some left position. The r clause holds iff it holds some right position. |
| Semantics.SatExistence1 | wiring.py:77-81 | The existence clauses of components below k hold iff each of them is placed on both sides. |
| Semantics.SatExistence | wiring.py:76-81 | The existence clauses hold iff every component has a left and a right position. |
| Semantics.SatUniquenessPair | wiring.py:88-90 | The two clauses for (pos, comp1, comp2) hold iff the two components do not share pos on either side. |
| Semantics.SatUniqueness3 | wiring.py:86-90 | The clauses for comp2 in (comp1, k) hold iff comp1 shares pos with none of them. |
| Semantics.SatUniqueness2 | wiring.py:85-90 | Same for all pairs with comp1 below k. |
| Semantics.SatUniqueness1 | wiring.py:84-90 | Same for all pairs and positions below k. |
| Semantics.SatUniqueness | wiring.py:83-90 | The clauses, emitted only for comp1 < comp2, hold iff no position on either side holds two different components. |
| Semantics.SatConnectionPair | wiring.py:97-102 | The two 4-literal clauses hold iff, with l(comp1,pos1) and r(comp2,pos2) both true, w(pos1,pos2) is true iff c(comp1,comp2) is. |
| Semantics.SatConnection4 | wiring.py:96-102 | Same for every pos2 below k. |
| Semantics.SatConnection3 | wiring.py:95-102 | Same for every pos1 below k. |
| Semantics.SatConnection2 | wiring.py:94-102 | Same for every comp2 below k. |
| Semantics.SatConnection1 | wiring.py:93-102 | Same for every comp1 below k. |
| Semantics.SatConnection | wiring.py:92-102 | The connection clauses hold iff the biconditional holds for every quadruple. |
| Semantics.SatNoCrossing4 | wiring.py:114-117 | The clauses for right1 in (right2, k) hold iff the wires (left1, right1) and (left2, right2) are never both drawn. |
| Semantics.SatNoCrossing3 | wiring.py:113-117 | Same for right2 below k. |
| Semantics.SatNoCrossing2 | wiring.py:112-117 | Same for left2 in (left1, k). |
| Semantics.SatNoCrossing1 | wiring.py:111-117 | Same for left1 below k. |
| Semantics.SatNoCrossing | wiring.py:104-117 | The no-crossing clauses hold iff, for left1 < left2 and right2 < right1, w(left1,right1) and w(left2,right2) are never both true. |
| Semantics.SatEncoded | wiring.py:62-68 | The whole encoding holds iff all five properties hold: c fixed by the matrix, every component placed, at most one per position, wires follow connections, and no wires cross. |
| Decoding.SideVar | wiring.py:153-159 | The ids the scans look up are positive. |
| Decoding.Row | wiring.py:153-154 | What one position's inner loop meets over comp below k: at most k components, each below k. |
| Decoding.RowMembers | wiring.py:153-154 | A component is in the row iff it is below k and its variable at pos is in the answer. |
| Decoding.RowIncreasing | wiring.py:153-154 | The row lists its components in strictly increasing order, the order of the inner loop. |
| Decoding.Scan | wiring.py:151-163 | Everything a scan meets, position by position, is a valid component. |
| Decoding.Pairing | wiring.py:149-163 | When decoding succeeds, there is one entry per true l variable. Each entry holds one or two values, the first a 1-based component. |
| Decoding.RowPrefix | wiring.py:153-154 | A shorter row scan is a prefix of a longer one. |
| Decoding.ScanPrefix | wiring.py:152-159 | A scan over fewer positions is a prefix of a scan over more. |
| Decoding.ScanSoFar | wiring.py:158-163 | What the scan has met up to (comp, pos) is a prefix of the whole scan. |
| Decoding.ScanStep | wiring.py:159-163 | One step of the scan adds comp exactly when its variable is in the answer. |
| Decoding.Unmatched | wiring.py:158-162 | When the second scan meets a true r(comp, pos) after as many true r variables as there are entries, decoding fails at that component, comp+1. |
| Decoding.PrefixAfter | wiring.py:158-163 | A prefix of the rest of a scan, after what came before, is still a prefix of the whole scan. |
| Decoding.RowOne | wiring.py:153-156 | With only component s true at pos, the row is [s] once the scan has passed s. |
| Decoding.ScanOnePerPosition | wiring.py:151-163 | With exactly sel[pos] true at each position, the scan yields sel. |
| Decoding.DecodeOnePerPosition | wiring.py:149-163 | With exactly one true l and one true r variable per position, decoding gives n entries, entry k being [lc(k)+1, rc(k)+1]. An empty answer gives the error instead. |
| Decoding.OpenedStep | wiring.py:154-156 | Appending [comp+1] for the next component met keeps the invariant of the first scan. |
| Decoding.ExtendedStep | wiring.py:162-163 | Extending the entry at the index by the next right component keeps the state invariant of the second scan. |
| Decoding.ExtendedAll | wiring.py:157-163 | A second scan that ends without running past the entries yields the result Pairing specifies. |
| Decoding.Decoder.constructor | wiring.py:142-147 | Keeps the numbering and the answer's literals, with n taken from the numbering. |
| Decoding.Decoder.Decode | wiring.py:149-163 | Returns exactly Pairing: an error for an empty answer, an error at the first r variable with no entry left to extend, and otherwise the entries. |
| Decoding.Decoder.OpenEntries | wiring.py:151-156 | The first scan: one entry [comp+1] per true l variable, in scan order. |
| Decoding.Decoder.OpenRow | wiring.py:153-156 | One position of the first scan appends [comp+1] for every component of that position's row, in order. |
| Decoding.Decoder.ExtendEntries | wiring.py:157-163 | The second scan over all positions yields Pairing. |
| Decoding.Decoder.ExtendRow | wiring.py:159-163 | The second scan at one position either keeps the invariant up to the next position, or reports a component whose true r variable finds no entry left to extend. |
| Decoding.Decoder.ExtendAt | wiring.py:160-163 | One step of the second scan: a true r variable with an entry left extends the entry at the index and advances it; one with no entry left is reported; a false one changes nothing. |
| Placement.Positions | wiring.py:76-81 | When every component is placed, gives one position holding each component. |
| Placement.AllOccupied | wiring.py:76-90 | Pigeonhole: with every component placed and no position shared, every position is some component's chosen position. |
| Placement.SideArrangement | wiring.py:76-90 | Such a side is an arrangement: each position holds exactly one component, and the components there form a permutation. |
| Placement.SidesPlaced | wiring.py:76-90 | The existence and uniqueness properties give the premises of the above for both sides. |
| Placement.TruthOf | wiring.py:153-159 | A variable is true iff the answer lists it. |
| Placement.SolutionDecodes | wiring.py:62-163 | A satisfying assignment of the encoding arranges both sides as permutations, and decoding its answer yields [lc(k)+1, rc(k)+1] for every position k. |
| Placement.SolutionWires | wiring.py:92-117 | Under those arrangements, w(pos1,pos2) is true iff the matrix connects the components at pos1 and pos2, and no two connected pairs cross. |

## Findings

| source | as written | input that shows it | evidently intended | confidence | as-written member | corrected member |
|---|---|---|---|---|---|---|
| wiring.py:133 | `line[:-1]` drops the last character of every line, so a last line without a terminator loses a real character | an instance file `11\nf1` with no final newline: the second row is [0], and encoding fails with a short row at (1,1) | drop only a trailing `'\n'`, so the file reads as the 2×2 matrix [[1,1],[0,1]] | not executed | Encoding.UnterminatedLastLine | Encoding.ReadSquareIntended |

`ReadMatrix` keeps the rule as written. The intended reader is `ReadMatrixIntended`. `Cnf` takes
a matrix already read, so the encoding does not depend on which reader produced it.

## Left out

- The command line: argparse, mode checks and `sys.exit` (wiring.py:178-241), and the hard-coded
  filename lists and numbering sizes. These are configuration, not logic.
- File I/O. `Cnf.__read_file` opening and iterating the file (wiring.py:129-137) is reduced to
  `ReadMatrix` over lines already read. `Decoder.__read_file` (wiring.py:170-175) is reduced to
  the literal list the constructor takes. Writing the pairing file (wiring.py:164-168) is left
  out. With fewer true r variables than entries, some entries keep one element, and the source
  would then fail only while writing `comps[1]`. The model returns those entries as they are.
- All printing: the DIMACS text of `encode` (wiring.py:69-71) and the decoder's progress lines
  (wiring.py:155, 161). The clause list and the result list carry the same content.
- The SAT solver. It runs in a separate process. Its answer is a parameter.
- `Encoding.Cnf.constructor`: requires a non-empty matrix. The source's `assert self.n != 0` is
  modelled by `ReadMatrix`, which refuses an instance without lines.
- Loop structure. Each nested loop of the source is a method of its own that runs one loop and
  calls the method for the loop inside it: `SingletonRow`, `UniquenessOfPosition`,
  `UniquenessOfComponent`, `ConnectionsOfComponent`, `ConnectionsOfPair`, `ConnectionsAtLeft`,
  `NoCrossingOfLeft`, `NoCrossingOfLefts` and `NoCrossingOfRight` in `Cnf`; `OpenEntries`,
  `OpenRow`, `ExtendEntries`, `ExtendRow` and `ExtendAt` in `Decoder`. The order of
  appends, and the values appended, are those of the source.
