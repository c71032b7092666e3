/** The integer part of `LARGE_compute_Pairwise_efficient` (graph.cpp:1755-1890):
    the contingency table between the ground-truth communities (rows) and
    the clusters of a run (columns), its row and column totals, the sums of
    squares and of `n_ij (n_ij - 1)`, and the pair counts `a`, `b`, `c`, `d`
    computed from them by `calA`-`calD` in 64-bit unsigned arithmetic. */
module Pairwise {
  import opened Lists

  /** 2^64: quint64 arithmetic is arithmetic modulo this. */
  const U64: nat := 0x1_0000_0000_0000_0000

  // ---------------------------------------------------------------------
  // The contingency table and its sums
  // ---------------------------------------------------------------------

  /** `n_ij`: how many ids community `x` and cluster `y` share. */
  function Entry(x: seq<nat>, y: seq<nat>): nat
  {
    |Elements(x) * Elements(y)|
  }

  /** One row of the table: community `x` against every cluster. */
  function Row(x: seq<nat>, result: seq<seq<nat>>): seq<nat>
  {
    seq(|result|, j requires 0 <= j < |result| => Entry(x, result[j]))
  }

  /** The contingency table, one row per community, one column per cluster. */
  function Table(truth: seq<seq<nat>>, result: seq<seq<nat>>): seq<seq<nat>>
  {
    seq(|truth|, i requires 0 <= i < |truth| => Row(truth[i], result))
  }

  /** Every row has `c` entries. */
  ghost predicate Rect(t: seq<seq<nat>>, c: nat)
  {
    forall i :: 0 <= i < |t| ==> |t[i]| == c
  }

  /** All entries, row after row. */
  function Flat(t: seq<seq<nat>>): seq<nat>
  {
    if t == [] then [] else Flat(t[..|t| - 1]) + t[|t| - 1]
  }

  /** The row totals `n_i.`. */
  function RowSums(t: seq<seq<nat>>): (r: seq<nat>)
    ensures |r| == |t|
  {
    if t == [] then [] else RowSums(t[..|t| - 1]) + [Sum(t[|t| - 1])]
  }

  function Zeros(c: nat): (r: seq<nat>)
    ensures |r| == c && forall j :: 0 <= j < c ==> r[j] == 0
  {
    if c == 0 then [] else Zeros(c - 1) + [0]
  }

  /** Entry-wise sum of two vectors. */
  function AddVec(a: seq<nat>, b: seq<nat>): (r: seq<nat>)
    requires |a| == |b|
    ensures |r| == |a| && forall j :: 0 <= j < |a| ==> r[j] == a[j] + b[j]
  {
    seq(|a|, j requires 0 <= j < |a| => a[j] + b[j])
  }

  /** The column totals `n_.j`, accumulated row by row as `nj.replace` does. */
  function ColSums(t: seq<seq<nat>>, c: nat): (r: seq<nat>)
    requires Rect(t, c)
    ensures |r| == c
  {
    if t == [] then Zeros(c) else AddVec(ColSums(t[..|t| - 1], c), t[|t| - 1])
  }

  /** Sum of squares. */
  function SumSq(s: seq<nat>): nat
  {
    if s == [] then 0 else SumSq(s[..|s| - 1]) + s[|s| - 1] * s[|s| - 1]
  }

  /** `x (x - 1)` as the source forms it in quint64, where `0 * (0 - 1)` is 0. */
  function Pairs(x: nat): nat
  {
    if x == 0 then 0 else x * (x - 1)
  }

  /** Sum of `x (x - 1)`. */
  function SumPairs(s: seq<nat>): nat
  {
    if s == [] then 0 else SumPairs(s[..|s| - 1]) + Pairs(s[|s| - 1])
  }

  /** Sum of `x (x - 1) / 2`, the number of unordered pairs inside each entry. */
  function SumChoose2(s: seq<nat>): nat
  {
    if s == [] then 0 else SumChoose2(s[..|s| - 1]) + Pairs(s[|s| - 1]) / 2
  }

  /** Scalar product. */
  function Dot(a: seq<nat>, b: seq<nat>): nat
    requires |a| == |b|
  {
    if a == [] then 0 else Dot(a[..|a| - 1], b[..|b| - 1]) + a[|a| - 1] * b[|b| - 1]
  }

  // ---------------------------------------------------------------------
  // The two loops of the source
  // ---------------------------------------------------------------------

  /** The first double loop (graph.cpp:1765-1785): every entry `n_ij` of
      the table is computed once and added into `nij`, `nij_square`,
      `nij_minus`, `nij_choose_2`, its row total and its column total. */
  method ContingencyCounts(truth: seq<seq<nat>>, result: seq<seq<nat>>)
      returns (nij: nat, nijMinus: nat, nijSquare: nat, nijChoose2: nat, ni: seq<nat>, nj: seq<nat>)
    ensures ni == RowSums(Table(truth, result))
    ensures nj == ColSums(Table(truth, result), |result|)
    ensures nij == Sum(Flat(Table(truth, result)))
    ensures nijSquare == SumSq(Flat(Table(truth, result)))
    ensures nijMinus == SumPairs(Flat(Table(truth, result)))
    ensures nijChoose2 == SumChoose2(Flat(Table(truth, result)))
  {
    var t := Table(truth, result);
    var c := |result|;
    assert Rect(t, c);
    nij, nijMinus, nijSquare, nijChoose2 := 0, 0, 0, 0;
    ni := [];
    nj := Zeros(c);
    var i := 0;
    while i < |truth|
      invariant 0 <= i <= |truth| && Rect(t[..i], c)
      invariant ni == RowSums(t[..i]) && nj == ColSums(t[..i], c)
      invariant nij == Sum(Flat(t[..i])) && nijSquare == SumSq(Flat(t[..i]))
      invariant nijMinus == SumPairs(Flat(t[..i])) && nijChoose2 == SumChoose2(Flat(t[..i]))
    {
      var sumRow;
      sumRow, nij, nijMinus, nijSquare, nijChoose2, nj :=
        AddRow(truth[i], result, Flat(t[..i]), nij, nijMinus, nijSquare, nijChoose2, nj);
      ni := ni + [sumRow];
      assert t[..i + 1][..i] == t[..i];
      assert t[..i + 1][i] == t[i];
      i := i + 1;
    }
    assert t[..i] == t;
  }

  /** The inner loop for one community `x` (graph.cpp:1770-1783): each
      entry of its row is added into the running sums, the row total and
      its column's total. `seen` are the entries accumulated before. */
  method AddRow(x: seq<nat>, result: seq<seq<nat>>, ghost seen: seq<nat>,
                nij: nat, nijMinus: nat, nijSquare: nat, nijChoose2: nat, nj: seq<nat>)
      returns (sumRow: nat, nij': nat, nijMinus': nat, nijSquare': nat, nijChoose2': nat, nj': seq<nat>)
    requires |nj| == |result|
    requires nij == Sum(seen) && nijSquare == SumSq(seen)
    requires nijMinus == SumPairs(seen) && nijChoose2 == SumChoose2(seen)
    ensures sumRow == Sum(Row(x, result)) && nj' == AddVec(nj, Row(x, result))
    ensures nij' == Sum(seen + Row(x, result)) && nijSquare' == SumSq(seen + Row(x, result))
    ensures nijMinus' == SumPairs(seen + Row(x, result)) && nijChoose2' == SumChoose2(seen + Row(x, result))
  {
    var row := Row(x, result);
    var c := |result|;
    sumRow, nij', nijMinus', nijSquare', nijChoose2', nj' := 0, nij, nijMinus, nijSquare, nijChoose2, nj;
    assert seen + row[..0] == seen;
    var j := 0;
    while j < c
      invariant 0 <= j <= c && |nj'| == c
      invariant sumRow == Sum(row[..j])
      invariant forall k :: 0 <= k < c ==> nj'[k] == nj[k] + (if k < j then row[k] else 0)
      invariant nij' == Sum(seen + row[..j]) && nijSquare' == SumSq(seen + row[..j])
      invariant nijMinus' == SumPairs(seen + row[..j]) && nijChoose2' == SumChoose2(seen + row[..j])
    {
      var entry := Entry(x, result[j]);
      assert entry == row[j];
      nij', nijMinus', nijSquare', nijChoose2' := Accumulate(seen + row[..j], entry, nij', nijMinus', nijSquare', nijChoose2');
      EntryStep(seen, row, j);
      SumAppend(row[..j], entry);
      sumRow := sumRow + entry;
      nj' := nj'[j := nj'[j] + entry];
      j := j + 1;
    }
    assert row[..j] == row;
    AddVecOf(nj, row, nj');
  }

  /** A vector whose every entry is the sum of the two entries is their `AddVec`. */
  lemma AddVecOf(a: seq<nat>, b: seq<nat>, r: seq<nat>)
    requires |a| == |b| == |r|
    requires forall k :: 0 <= k < |r| ==> r[k] == a[k] + b[k]
    ensures r == AddVec(a, b)
  {
  }

  /** The running sums of graph.cpp:1776-1780 after one more entry `x`. */
  method Accumulate(ghost s: seq<nat>, x: nat, nij: nat, nijMinus: nat, nijSquare: nat, nijChoose2: nat)
      returns (nij': nat, nijMinus': nat, nijSquare': nat, nijChoose2': nat)
    requires nij == Sum(s) && nijSquare == SumSq(s)
    requires nijMinus == SumPairs(s) && nijChoose2 == SumChoose2(s)
    ensures nij' == Sum(s + [x]) && nijSquare' == SumSq(s + [x])
    ensures nijMinus' == SumPairs(s + [x]) && nijChoose2' == SumChoose2(s + [x])
  {
    AppendSums(s, x);
    nijMinus' := nijMinus + Pairs(x);
    nijSquare' := nijSquare + x * x;
    nijChoose2' := nijChoose2 + Pairs(x) / 2;
    nij' := nij + x;
  }

  /** Taking one more entry of the row. */
  lemma EntryStep(seen: seq<nat>, row: seq<nat>, j: nat)
    requires j < |row|
    ensures row[..j + 1] == row[..j] + [row[j]]
    ensures (seen + row[..j]) + [row[j]] == seen + row[..j + 1]
  {
    assert row[..j + 1] == row[..j] + [row[j]];
  }

  /** What appending one value does to each of the sums. */
  lemma AppendSums(s: seq<nat>, x: nat)
    ensures Sum(s + [x]) == Sum(s) + x
    ensures SumSq(s + [x]) == SumSq(s) + x * x
    ensures SumPairs(s + [x]) == SumPairs(s) + Pairs(x)
    ensures SumChoose2(s + [x]) == SumChoose2(s) + Pairs(x) / 2
  {
    assert (s + [x])[..|s|] == s;
    SumAppend(s, x);
  }

  /** The second and third loops (graph.cpp:1803-1822), once for the row
      totals and once for the column totals: their sum, sum of squares and
      sum of `x (x - 1) / 2`, each entry computed in 64 bits. */
  method MarginalSums(v: seq<nat>) returns (total: nat, square: nat, choose2: nat)
    ensures total == Sum(v) && square == SumSq(v) && choose2 == SumChoose2(v)
  {
    total, square, choose2 := 0, 0, 0;
    var i := 0;
    while i < |v|
      invariant 0 <= i <= |v|
      invariant total == Sum(v[..i]) && square == SumSq(v[..i]) && choose2 == SumChoose2(v[..i])
    {
      var entry := v[i];
      AppendSums(v[..i], entry);
      assert v[..i + 1] == v[..i] + [entry];
      square := square + entry * entry;
      choose2 := choose2 + Pairs(entry) / 2;
      total := total + entry;
      i := i + 1;
    }
    assert v[..i] == v;
  }

  // ---------------------------------------------------------------------
  // The 32-bit squares of the source's second and third loops
  // ---------------------------------------------------------------------

  /** A value read into a C++ `int`: its low 32 bits as a two's-complement number. */
  function Int32(x: int): int
  {
    var m := x % 0x1_0000_0000;
    if m >= 0x8000_0000 then m - 0x1_0000_0000 else m
  }

  /** `int entry = ni[i]; quint64 entry_square = entry*entry;` as written
      (graph.cpp:1807-1808, 1817-1818): the product is formed in `int`,
      where it wraps, and only then widened to 64 bits. */
  function SquareAsWritten(x: nat): (r: nat)
    ensures r < U64
  {
    Int32(Int32(x) * Int32(x)) % U64
  }

  /** While the square fits in an `int`, the code as written gives the right square. */
  lemma SquareAsWrittenSmall(x: nat)
    requires x * x < 0x8000_0000
    ensures SquareAsWritten(x) == x * x
  {
    if x >= 0x8000_0000 {
      MulMonotone(0x8000_0000, x, x);
      assert false;
    }
  }

  /** A row or column total of 46341 already squares to more than an `int`
      holds, and the wrapped square widened to 64 bits is far off. */
  lemma SquareAsWrittenOverflows()
    ensures SquareAsWritten(46341) == 18446744071562072601
    ensures 46341 * 46341 == 2147488281
  {
  }

  lemma MulMonotone(a: nat, b: nat, c: nat)
    requires a <= b
    ensures a * c <= b * c
  {
  }

  // ---------------------------------------------------------------------
  // calA - calD
  // ---------------------------------------------------------------------

  /** quint64 addition and subtraction. */
  function Add64(x: nat, y: nat): nat
  {
    (x + y) % U64
  }

  function Sub64(x: nat, y: nat): nat
  {
    (x - y) % U64
  }

  /** `n_square = n * n`. */
  function Square(n: nat): nat
  {
    n * n
  }

  /** `calA` (graph.cpp:1856-1862): pairs together in both partitions. */
  function CalA(nijMinus: nat): nat
  {
    nijMinus / 2
  }

  /** `calB` (graph.cpp:1864-1870): pairs together in a community but not in a cluster. */
  function CalB(niSquare: nat, nijSquare: nat): nat
  {
    Sub64(niSquare, nijSquare) / 2
  }

  /** `calC` (graph.cpp:1872-1878): pairs together in a cluster but not in a community. */
  function CalC(njSquare: nat, nijSquare: nat): nat
  {
    Sub64(njSquare, nijSquare) / 2
  }

  /** `calD` (graph.cpp:1880-1890): pairs apart in both, `n^2 + nij^2 - ni^2 - nj^2`
      evaluated left to right in quint64 and halved. */
  function CalD(nSquare: nat, nijSquare: nat, niSquare: nat, njSquare: nat): nat
  {
    Sub64(Sub64(Add64(nSquare, nijSquare), niSquare), njSquare) / 2
  }

  /** The integer part of `LARGE_compute_Pairwise_efficient(n)`: the table's
      sums, then `a`, `b`, `c`, `d` from `calA`-`calD` with `n_square = n^2`.
      When `n` is the number of ids the table counts and `n^2` fits in 64
      bits, `a` is the number of pairs together in both partitions and the
      four counts add up to all `n (n - 1) / 2` pairs. */
  method PairCounts(truth: seq<seq<nat>>, result: seq<seq<nat>>, n: nat)
      returns (a: nat, b: nat, c: nat, d: nat)
    ensures var t := Table(truth, result);
      n == Sum(Flat(t)) && n * n < U64 ==>
        && a == SumChoose2(Flat(t))
        && 2 * b == SumSq(RowSums(t)) - SumSq(Flat(t))
        && 2 * c == SumSq(ColSums(t, |result|)) - SumSq(Flat(t))
        && a + b + c + d == n * (n - 1) / 2
  {
    var nij, nijMinus, nijSquare, nijChoose2, ni, nj := ContingencyCounts(truth, result);
    var niSum, niSquare, niChoose2 := MarginalSums(ni);
    var njSum, njSquare, njChoose2 := MarginalSums(nj);
    var nSquare := Square(n);
    a := CalA(nijMinus);
    d := CalD(nSquare, nijSquare, niSquare, njSquare);
    c := CalC(njSquare, nijSquare);
    b := CalB(niSquare, nijSquare);
    var t := Table(truth, result);
    if n == Sum(Flat(t)) && n * n < U64 {
      assert Rect(t, |result|);
      PairCountsMeaning(t, |result|, n, nSquare, nijMinus, nijSquare, niSquare, njSquare, a, b, c, d);
    }
  }

  /** The four counts the source computes from the table's sums, when the
      table counts `n` ids and `n^2` fits in 64 bits. */
  lemma PairCountsMeaning(t: seq<seq<nat>>, cols: nat, n: nat, nSquare: nat,
                          nijMinus: nat, nijSquare: nat, niSquare: nat, njSquare: nat,
                          a: nat, b: nat, c: nat, d: nat)
    requires Rect(t, cols) && n == Sum(Flat(t)) && nSquare == n * n && nSquare < U64
    requires nijMinus == SumPairs(Flat(t)) && nijSquare == SumSq(Flat(t))
    requires niSquare == SumSq(RowSums(t)) && njSquare == SumSq(ColSums(t, cols))
    requires a == CalA(nijMinus) && b == CalB(niSquare, nijSquare)
    requires c == CalC(njSquare, nijSquare) && d == CalD(nSquare, nijSquare, niSquare, njSquare)
    ensures a == SumChoose2(Flat(t))
    ensures 2 * b == niSquare - nijSquare && 2 * c == njSquare - nijSquare
    ensures a + b + c + d == n * (n - 1) / 2
  {
    PairCountIdentity(t, cols);
  }

  // ---------------------------------------------------------------------
  // Why the four counts add up
  // ---------------------------------------------------------------------

  /** For a table of naturals with `n` ids in all, `n^2 < 2^64`: the
      accumulated `nij_minus` is even and half of it is the sum of the
      `C(n_ij, 2)`; each of `calB`, `calC`, `calD` is half of a non-negative
      even number computed without wrap-around; and `a + b + c + d` is the
      number of pairs, `n (n - 1) / 2`. */
  lemma PairCountIdentity(t: seq<seq<nat>>, c: nat)
    requires Rect(t, c)
    requires Sum(Flat(t)) * Sum(Flat(t)) < U64
    ensures var n, sf, sr, sc := Sum(Flat(t)), SumSq(Flat(t)), SumSq(RowSums(t)), SumSq(ColSums(t, c));
      && SumPairs(Flat(t)) % 2 == 0
      && CalA(SumPairs(Flat(t))) == SumChoose2(Flat(t))
      && 2 * CalB(sr, sf) == sr - sf
      && 2 * CalC(sc, sf) == sc - sf
      && 2 * CalD(n * n, sf, sr, sc) == n * n + sf - sr - sc
      && CalA(SumPairs(Flat(t))) + CalB(sr, sf) + CalC(sc, sf) + CalD(n * n, sf, sr, sc) == n * (n - 1) / 2
  {
    var f := Flat(t);
    TableSquares(t, c);
    CountsFromSquares(Sum(f), SumSq(f), SumSq(RowSums(t)), SumSq(ColSums(t, c)), SumPairs(f),
                      SumChoose2(f), SumChoose2(RowSums(t)), SumChoose2(ColSums(t, c)));
  }

  /** The identity on plain numbers: `n` ids, the three sums of squares,
      `nij_minus` and the three sums of `C(x, 2)`. */
  lemma CountsFromSquares(n: nat, sf: nat, sr: nat, sc: nat, sp: nat, kf: nat, kr: nat, kc: nat)
    requires n * n < U64
    requires sf <= sr <= n * n && sf <= sc && sr + sc <= n * n + sf
    requires sp == sf - n && sp == 2 * kf
    requires sf == n + 2 * kf && sr == n + 2 * kr && sc == n + 2 * kc
    ensures sp % 2 == 0 && CalA(sp) == kf
    ensures 2 * CalB(sr, sf) == sr - sf
    ensures 2 * CalC(sc, sf) == sc - sf
    ensures 2 * CalD(n * n, sf, sr, sc) == n * n + sf - sr - sc
    ensures CalA(sp) + CalB(sr, sf) + CalC(sc, sf) + CalD(n * n, sf, sr, sc) == n * (n - 1) / 2
  {
    var nn := n * n;
    var pc := n * (n - 1) / 2;
    PairsHalf(n);
    HalfOfEven(sr, sf, kr - kf);
    HalfOfEven(sc, sf, kc - kf);
    HalfOfEvenChain(nn, sf, sr, sc, pc + kf - kr - kc);
    CountsAddUp(n, nn, sf, sr, sc, sp, CalA(sp), CalB(sr, sf), CalC(sc, sf), CalD(nn, sf, sr, sc), pc);
  }

  /** `calB` and `calC` on an even, non-negative difference below `2^64` are exact halves. */
  lemma HalfOfEven(x: nat, y: nat, k: int)
    requires x - y == 2 * k && 0 <= x - y < U64
    ensures 2 * CalB(x, y) == x - y && 2 * CalC(x, y) == x - y
  {
    NoWrap(x - y);
  }

  /** `calD` on an even, non-negative result below `2^64` is its exact half. */
  lemma HalfOfEvenChain(nn: nat, sf: nat, sr: nat, sc: nat, k: int)
    requires nn + sf - sr - sc == 2 * k && 0 <= nn + sf - sr - sc < U64
    ensures 2 * CalD(nn, sf, sr, sc) == nn + sf - sr - sc
  {
    SubChain(nn, sf, sr, sc);
    NoWrap(nn + sf - sr - sc);
  }

  /** `n (n - 1) / 2` is an exact half of `n^2 - n`. */
  lemma PairsHalf(n: nat)
    ensures 2 * (n * (n - 1) / 2) == n * n - n
  {
    PairCount(n);
    assert n * (n - 1) == n * n - n;
  }

  /** The arithmetic that closes the identity, on plain numbers. */
  lemma CountsAddUp(n: int, nn: int, sf: int, sr: int, sc: int, sp: int,
                    a: int, b: int, c: int, d: int, pc: int)
    requires sp == sf - n && 2 * a == sp
    requires 2 * b == sr - sf && 2 * c == sc - sf && 2 * d == nn + sf - sr - sc
    requires 2 * pc == nn - n
    ensures a + b + c + d == pc
  {
  }

  /** The facts about a table's sums of squares that the identity needs:
      with `n` ids, `sf <= sr <= n^2`, `sf <= sc`, `sr + sc <= n^2 + sf`, and
      each of `sf`, `sr`, `sc` exceeds `n` by an even number. */
  lemma TableSquares(t: seq<seq<nat>>, c: nat)
    requires Rect(t, c)
    ensures var n, sf, sr, sc := Sum(Flat(t)), SumSq(Flat(t)), SumSq(RowSums(t)), SumSq(ColSums(t, c));
      && sf <= sr <= n * n && sf <= sc
      && sr + sc <= n * n + sf
      && SumPairs(Flat(t)) == sf - n
      && SumPairs(Flat(t)) == 2 * SumChoose2(Flat(t))
      && sf == n + 2 * SumChoose2(Flat(t))
      && sr == n + 2 * SumChoose2(RowSums(t))
      && sc == n + 2 * SumChoose2(ColSums(t, c))
  {
    var f, rows, cols := Flat(t), RowSums(t), ColSums(t, c);
    SquaresSplit(f);
    SquaresSplit(rows);
    SquaresSplit(cols);
    RowFacts(t);
    ColFacts(t, c);
    RowSquaresBound(t);
    ApartCountNonNegative(t, c);
  }

  /** The row side: the row totals' squares lie between the entries' squares and `n^2`. */
  lemma RowSquaresBound(t: seq<seq<nat>>)
    ensures SumSq(RowSums(t)) <= Sum(Flat(t)) * Sum(Flat(t))
  {
    RowFacts(t);
    SquareOfSumBound(RowSums(t));
  }

  /** `sum x^2 = sum x + 2 sum C(x, 2)`. */
  lemma SquaresSplit(s: seq<nat>)
    ensures SumPairs(s) == SumSq(s) - Sum(s)
    ensures SumPairs(s) == 2 * SumChoose2(s)
    ensures SumSq(s) == Sum(s) + 2 * SumChoose2(s)
  {
    PairsAreSquaresMinusSum(s);
    Choose2IsHalfPairs(s);
  }

  /** A value that fits in 64 bits is its own residue. */
  lemma NoWrap(x: int)
    requires 0 <= x < U64
    ensures x % U64 == x
  {
  }

  /** Wrapping after each step of `x + y - p - q` gives the residue of the exact result. */
  lemma SubChain(x: nat, y: nat, p: nat, q: nat)
    ensures Sub64(Sub64(Add64(x, y), p), q) == (x + y - p - q) % U64
  {
    ModSub(x + y, p);
    ModSub(Add64(x, y) - p, q);
    ModSub(x + y - p, q);
    ModSub2(x + y, p, q);
  }

  /** Reducing before a subtraction does not change the residue. */
  lemma ModSub(x: int, y: int)
    ensures (x % U64 - y) % U64 == (x - y) % U64
  {
    var k := x / U64;
    assert x % U64 == x - k * U64;
    ModShift(x - y, k);
  }

  lemma ModSub2(x: int, p: int, q: int)
    ensures ((x % U64 - p) % U64 - q) % U64 == (x - p - q) % U64
  {
    ModSub(x, p);
    ModSub(x % U64 - p, q);
    ModSub(x - p, q);
  }

  lemma ModShift(z: int, k: int)
    ensures (z - k * U64) % U64 == z % U64
  {
  }

  /** `n (n - 1)` is even, so `n (n - 1) / 2` is exact. */
  lemma PairCount(n: nat)
    ensures 2 * (n * (n - 1) / 2) == n * (n - 1)
    ensures Pairs(n) % 2 == 0
  {
    PairsTwice(n);
  }

  /** `x (x - 1)` is twice `0 + 1 + ... + (x - 1)`. */
  lemma {:induction false} PairsTwice(x: nat)
    ensures Pairs(x) == 2 * Triangle(x) && x * (x - 1) == 2 * Triangle(x)
  {
    if x > 1 {
      PairsTwice(x - 1);
      var y := x - 1;
      assert y * x == y * (y - 1) + y * 2;
    }
  }

  function Triangle(x: nat): nat
  {
    if x == 0 then 0 else Triangle(x - 1) + (x - 1)
  }

  /** `x (x - 1) = x^2 - x`, summed. */
  lemma {:induction false} PairsAreSquaresMinusSum(s: seq<nat>)
    ensures SumPairs(s) == SumSq(s) - Sum(s)
  {
    if s != [] {
      PairsAreSquaresMinusSum(s[..|s| - 1]);
      var x := s[|s| - 1];
      if x > 0 {
        assert x * (x - 1) == x * x - x;
      }
    }
  }

  /** Every `x (x - 1)` is even, so halving the sum is summing the halves. */
  lemma {:induction false} Choose2IsHalfPairs(s: seq<nat>)
    ensures SumPairs(s) == 2 * SumChoose2(s)
  {
    if s != [] {
      Choose2IsHalfPairs(s[..|s| - 1]);
      PairCount(s[|s| - 1]);
    }
  }

  /** `(a + b)^2 = a^2 + 2ab + b^2`. */
  lemma SquareOfSum(a: int, b: int)
    ensures (a + b) * (a + b) == a * a + 2 * (a * b) + b * b
  {
  }

  /** The sum of squares is at most the square of the sum. */
  lemma {:induction false} SquareOfSumBound(s: seq<nat>)
    ensures SumSq(s) <= Sum(s) * Sum(s)
  {
    if s != [] {
      var p, x := s[..|s| - 1], s[|s| - 1];
      SquareOfSumBound(p);
      assert s == p + [x];
      SumAppend(p, x);
      SquareOfSum(Sum(p), x);
    }
  }

  lemma {:induction false} SumSqConcat(s: seq<nat>, u: seq<nat>)
    ensures SumSq(s + u) == SumSq(s) + SumSq(u)
  {
    if u == [] {
      assert s + u == s;
    } else {
      var k := |u| - 1;
      assert s + u == (s + u[..k]) + [u[k]];
      assert (s + u)[..|s + u| - 1] == s + u[..k];
      SumSqConcat(s, u[..k]);
    }
  }

  /** The row totals add up to all entries, and their squares to at least the entries' squares. */
  lemma {:induction false} RowFacts(t: seq<seq<nat>>)
    ensures Sum(RowSums(t)) == Sum(Flat(t))
    ensures SumSq(Flat(t)) <= SumSq(RowSums(t))
  {
    if t != [] {
      var p, r := t[..|t| - 1], t[|t| - 1];
      RowFacts(p);
      AppendSums(RowSums(p), Sum(r));
      SumConcat(Flat(p), r);
      SumSqConcat(Flat(p), r);
      SquareOfSumBound(r);
    }
  }

  /** The column totals add up to all entries, and their squares to at least the entries' squares. */
  lemma {:induction false} ColFacts(t: seq<seq<nat>>, c: nat)
    requires Rect(t, c)
    ensures Sum(ColSums(t, c)) == Sum(Flat(t))
    ensures SumSq(Flat(t)) <= SumSq(ColSums(t, c))
  {
    if t == [] {
      ZerosSums(c);
    } else {
      var p, r := t[..|t| - 1], t[|t| - 1];
      assert Rect(p, c);
      ColFacts(p, c);
      var cs := ColSums(p, c);
      AddVecSums(cs, r);
      SumConcat(Flat(p), r);
      SumSqConcat(Flat(p), r);
    }
  }

  lemma {:induction false} ZerosSums(c: nat)
    ensures Sum(Zeros(c)) == 0 && SumSq(Zeros(c)) == 0
  {
    if c > 0 {
      ZerosSums(c - 1);
      AppendSums(Zeros(c - 1), 0);
    }
  }

  /** Sums of an entry-wise sum: `|a + b|^2 = |a|^2 + 2 a.b + |b|^2`. */
  lemma {:induction false} AddVecSums(a: seq<nat>, b: seq<nat>)
    requires |a| == |b|
    ensures Sum(AddVec(a, b)) == Sum(a) + Sum(b)
    ensures SumSq(AddVec(a, b)) == SumSq(a) + 2 * Dot(a, b) + SumSq(b)
  {
    AddVecSum(a, b);
    if a != [] {
      var k := |a| - 1;
      var a', b', x, y := a[..k], b[..k], a[k], b[k];
      AddVecSums(a', b');
      AddVecSnoc(a, b);
      LastSplit(a);
      LastSplit(b);
      AppendSums(AddVec(a', b'), x + y);
      AppendSums(a', x);
      AppendSums(b', y);
      CombineSquares(SumSq(AddVec(a', b')), SumSq(a'), SumSq(b'), Dot(a', b'), x, y);
    }
  }

  /** The sum of an entry-wise sum is the sum of the two sums. */
  lemma {:induction false} AddVecSum(a: seq<nat>, b: seq<nat>)
    requires |a| == |b|
    ensures Sum(AddVec(a, b)) == Sum(a) + Sum(b)
  {
    if a != [] {
      var k := |a| - 1;
      var a', b', x, y := a[..k], b[..k], a[k], b[k];
      AddVecSum(a', b');
      AddVecSnoc(a, b);
      LastSplit(a);
      LastSplit(b);
      SumAppend(AddVec(a', b'), x + y);
      SumAppend(a', x);
      SumAppend(b', y);
    }
  }

  /** An entry-wise sum split at its last entry. */
  lemma AddVecSnoc(a: seq<nat>, b: seq<nat>)
    requires |a| == |b| && a != []
    ensures AddVec(a, b) == AddVec(a[..|a| - 1], b[..|b| - 1]) + [a[|a| - 1] + b[|b| - 1]]
  {
    var k := |a| - 1;
    var front := AddVec(a[..k], b[..k]);
    var l := front + [a[k] + b[k]];
    forall j | 0 <= j < |a| ensures AddVec(a, b)[j] == l[j] {
      if j < k {
        assert l[j] == front[j] == a[..k][j] + b[..k][j];
      }
    }
  }

  /** The step of `|a + b|^2 = |a|^2 + 2 a.b + |b|^2` for one more entry pair `x`, `y`. */
  lemma CombineSquares(sv: nat, sa: nat, sb: nat, d: nat, x: nat, y: nat)
    requires sv == sa + 2 * d + sb
    ensures sv + (x + y) * (x + y) == (sa + x * x) + 2 * (d + x * y) + (sb + y * y)
  {
    SquareOfSum(x, y);
  }

  /** An entry is at most the sum. */
  lemma {:induction false} EntryBelowSum(s: seq<nat>, j: nat)
    requires j < |s|
    ensures s[j] <= Sum(s)
  {
    if j < |s| - 1 {
      EntryBelowSum(s[..|s| - 1], j);
    }
  }

  /** With every entry of `a` at most `m`, `a.b <= m * sum(b)`. */
  lemma {:induction false} DotBound(a: seq<nat>, b: seq<nat>, m: nat)
    requires |a| == |b|
    requires forall j :: 0 <= j < |a| ==> a[j] <= m
    ensures Dot(a, b) <= m * Sum(b)
  {
    if a != [] {
      var k := |a| - 1;
      DotBound(a[..k], b[..k], m);
      assert b == b[..k] + [b[k]];
      SumAppend(b[..k], b[k]);
      MulMonotone(a[k], m, b[k]);
      Distribute2(m, Sum(b[..k]), b[k]);
    }
  }

  lemma Distribute2(m: int, x: int, y: int)
    ensures m * (x + y) == m * x + m * y
  {
  }

  /** `n^2 + sum n_ij^2 - sum n_i.^2 - sum n_.j^2` (twice the number of pairs
      apart in both partitions) is never negative: adding a row `r` with total
      `s` to a table with column totals `C` adds `2 (n s - C.r)` to it, and
      every column total is at most `n`. */
  lemma {:induction false} ApartCountNonNegative(t: seq<seq<nat>>, c: nat)
    requires Rect(t, c)
    ensures SumSq(RowSums(t)) + SumSq(ColSums(t, c)) <= Sum(Flat(t)) * Sum(Flat(t)) + SumSq(Flat(t))
  {
    if t == [] {
      ZerosSums(c);
    } else {
      var p, r := t[..|t| - 1], t[|t| - 1];
      assert Rect(p, c);
      ApartCountNonNegative(p, c);
      var cs := ColSums(p, c);
      var n, s := Sum(Flat(p)), Sum(r);
      ColFacts(p, c);
      forall j | 0 <= j < c ensures cs[j] <= n {
        EntryBelowSum(cs, j);
      }
      DotBound(cs, r, n);
      AddVecSums(cs, r);
      AppendSums(RowSums(p), s);
      SumConcat(Flat(p), r);
      SumSqConcat(Flat(p), r);
      SquareOfSum(n, s);
    }
  }
}
