/** The group indexer: the row, column and 3x3 box of a cell index, and the
    cells of each of the 27 groups. */
module Groups {
  import opened Board

  /** The source passes one of its functions `row`, `col`, `box` around as
      the parameter `field`; here that choice is a value. */
  datatype GroupKind = Rows | Cols | Boxes

  function Row(i: nat): (r: nat)
    ensures i < CellCount ==> r < 9
  {
    i / 9
  }

  function Col(i: nat): (c: nat)
    ensures c < 9
    ensures i == 9 * Row(i) + c
  {
    i % 9
  }

  /** The box of a cell: its row band times three plus its column stack.
      The contract states that this is the source's closed formula on the
      index. */
  function Box(i: nat): (b: nat)
    ensures b == (i % 9) / 3 + (i / 27) * 3
    ensures i < CellCount ==> b < 9
  {
    3 * (Row(i) / 3) + Col(i) / 3
  }

  /** The number of the group of kind `k` that cell `i` belongs to. */
  function GroupOf(k: GroupKind, i: nat): nat {
    match k
    case Rows => Row(i)
    case Cols => Col(i)
    case Boxes => Box(i)
  }

  /** Cells `i` and `j` lie in a common row, column or box (`i == j` too). */
  predicate SharesGroup(i: nat, j: nat) {
    Row(i) == Row(j) || Col(i) == Col(j) || Box(i) == Box(j)
  }

  /** The indices below `m` whose group of kind `k` is `n`, ascending: the
      positions that the source's `filter((_, i) => field(i) === n)` keeps. */
  function Members(k: GroupKind, n: int, m: nat): (r: seq<nat>)
    ensures forall t :: 0 <= t < |r| ==> r[t] < m && GroupOf(k, r[t]) == n
    ensures forall j :: 0 <= j < m && GroupOf(k, j) == n ==> j in r
    ensures forall t, u :: 0 <= t < u < |r| ==> r[t] < r[u]
  {
    if m == 0 then []
    else Members(k, n, m - 1) + (if GroupOf(k, m - 1) == n then [m - 1] else [])
  }

  /** The cells of group `n` of kind `k`, in board order
      (`getFieldByNumber`). */
  function FieldByNumber(k: GroupKind, n: int, node: seq<Cell>): (r: seq<Cell>)
    ensures |r| == |Members(k, n, |node|)|
    ensures forall t :: 0 <= t < |r| ==> r[t] == node[Members(k, n, |node|)[t]]
    decreases |node|
  {
    if |node| == 0 then []
    else
      var last := |node| - 1;
      var front := node[..last];
      assert forall j :: 0 <= j < last ==> front[j] == node[j];
      FieldByNumber(k, n, front) + (if GroupOf(k, last) == n then [node[last]] else [])
  }

  /** A cell belongs to the field of group `n` exactly when some index of
      that group holds it. */
  lemma FieldByNumberMembers(k: GroupKind, n: int, node: seq<Cell>)
    ensures forall c :: c in FieldByNumber(k, n, node) <==>
      exists j :: 0 <= j < |node| && GroupOf(k, j) == n && node[j] == c
  {
    var f := FieldByNumber(k, n, node);
    var m := Members(k, n, |node|);
    forall c ensures c in f <==> exists j :: 0 <= j < |node| && GroupOf(k, j) == n && node[j] == c {
      if c in f {
        var t :| 0 <= t < |f| && f[t] == c;
        assert node[m[t]] == c && GroupOf(k, m[t]) == n;
      }
      if exists j :: 0 <= j < |node| && GroupOf(k, j) == n && node[j] == c {
        var j :| 0 <= j < |node| && GroupOf(k, j) == n && node[j] == c;
        assert j in m;
        var t :| 0 <= t < |m| && m[t] == j;
        assert f[t] == c;
      }
    }
  }

  /** The cells of the group of kind `k` that contains cell `i`
      (`getFieldByIndex`); it includes cell `i` itself. */
  function FieldByIndex(k: GroupKind, i: nat, node: seq<Cell>): (r: seq<Cell>)
    ensures i < |node| ==> node[i] in r
    ensures forall c :: c in r <==>
      exists j :: 0 <= j < |node| && GroupOf(k, j) == GroupOf(k, i) && node[j] == c
  {
    FieldByNumberMembers(k, GroupOf(k, i), node);
    FieldByNumber(k, GroupOf(k, i), node)
  }

  /** Number of cells of group `n` in row `r`. */
  function HitsInRow(k: GroupKind, n: int, r: nat): nat {
    match k
    case Rows => if r == n then 9 else 0
    case Cols => 1
    case Boxes => if r / 3 == n / 3 then 3 else 0
  }

  /** Number of indices below `m` in group `n` of kind `k`. */
  function CountIn(k: GroupKind, n: int, m: nat): nat {
    if m == 0 then 0 else CountIn(k, n, m - 1) + Hit(k, n, m - 1)
  }

  lemma {:induction false} MembersCount(k: GroupKind, n: int, m: nat)
    ensures |Members(k, n, m)| == CountIn(k, n, m)
  {
    if m > 0 {
      MembersCount(k, n, m - 1);
    }
  }

  lemma RowColPosition(r: nat, c: nat)
    requires c < 9
    ensures Row(9 * r + c) == r && Col(9 * r + c) == c
  {
  }

  lemma BoxPosition(r: nat, c: nat)
    requires c < 9
    ensures Box(9 * r + c) == 3 * (r / 3) + c / 3
  {
    RowColPosition(r, c);
  }

  /** 1 when cell `j` belongs to group `n` of kind `k`, else 0. */
  function Hit(k: GroupKind, n: int, j: nat): nat {
    if GroupOf(k, j) == n then 1 else 0
  }

  function RowHitSum(k: GroupKind, n: int, m: nat): nat {
    Hit(k, n, m) + Hit(k, n, m + 1) + Hit(k, n, m + 2)
    + Hit(k, n, m + 3) + Hit(k, n, m + 4) + Hit(k, n, m + 5)
    + Hit(k, n, m + 6) + Hit(k, n, m + 7) + Hit(k, n, m + 8)
  }

  lemma CountNine(k: GroupKind, n: int, m: nat)
    ensures CountIn(k, n, m + 9) == CountIn(k, n, m) + RowHitSum(k, n, m)
  {
    assert CountIn(k, n, m + 9) == CountIn(k, n, m + 8) + Hit(k, n, m + 8);
    assert CountIn(k, n, m + 8) == CountIn(k, n, m + 7) + Hit(k, n, m + 7);
    assert CountIn(k, n, m + 7) == CountIn(k, n, m + 6) + Hit(k, n, m + 6);
    assert CountIn(k, n, m + 6) == CountIn(k, n, m + 5) + Hit(k, n, m + 5);
    assert CountIn(k, n, m + 5) == CountIn(k, n, m + 4) + Hit(k, n, m + 4);
    assert CountIn(k, n, m + 4) == CountIn(k, n, m + 3) + Hit(k, n, m + 3);
    assert CountIn(k, n, m + 3) == CountIn(k, n, m + 2) + Hit(k, n, m + 2);
    assert CountIn(k, n, m + 2) == CountIn(k, n, m + 1) + Hit(k, n, m + 1);
    assert CountIn(k, n, m + 1) == CountIn(k, n, m) + Hit(k, n, m);
  }

  /** The nine cells of board row r lie in row r, columns 0..8 in order. */
  lemma RowPositions(r: nat)
    ensures Row(9 * r) == r && Col(9 * r) == 0
    ensures Row(9 * r + 1) == r && Col(9 * r + 1) == 1
    ensures Row(9 * r + 2) == r && Col(9 * r + 2) == 2
    ensures Row(9 * r + 3) == r && Col(9 * r + 3) == 3
    ensures Row(9 * r + 4) == r && Col(9 * r + 4) == 4
    ensures Row(9 * r + 5) == r && Col(9 * r + 5) == 5
    ensures Row(9 * r + 6) == r && Col(9 * r + 6) == 6
    ensures Row(9 * r + 7) == r && Col(9 * r + 7) == 7
    ensures Row(9 * r + 8) == r && Col(9 * r + 8) == 8
  {
    RowColPosition(r, 0); RowColPosition(r, 1); RowColPosition(r, 2);
    RowColPosition(r, 3); RowColPosition(r, 4); RowColPosition(r, 5);
    RowColPosition(r, 6); RowColPosition(r, 7); RowColPosition(r, 8);
  }

  lemma RowHitsBoxes(n: int, r: nat)
    requires 0 <= n < 9
    ensures RowHitSum(Boxes, n, 9 * r) == HitsInRow(Boxes, n, r)
  {
    BoxRowSum(n, r);
  }

  lemma BoxRowSum(n: int, r: nat)
    requires 0 <= n < 9
    ensures Hit(Boxes, n, 9 * r) + Hit(Boxes, n, 9 * r + 1) + Hit(Boxes, n, 9 * r + 2)
          + Hit(Boxes, n, 9 * r + 3) + Hit(Boxes, n, 9 * r + 4) + Hit(Boxes, n, 9 * r + 5)
          + Hit(Boxes, n, 9 * r + 6) + Hit(Boxes, n, 9 * r + 7) + Hit(Boxes, n, 9 * r + 8)
         == if r / 3 == n / 3 then 3 else 0
  {
    BoxPosition(r, 0); BoxPosition(r, 1); BoxPosition(r, 2);
    BoxPosition(r, 3); BoxPosition(r, 4); BoxPosition(r, 5);
    BoxPosition(r, 6); BoxPosition(r, 7); BoxPosition(r, 8);
    BandOf(r / 3, n);
  }

  lemma BandOf(q: int, n: int)
    requires 0 <= n
    ensures q == n / 3 <==> n == 3 * q || n == 3 * q + 1 || n == 3 * q + 2
  {
  }

  lemma RowHits(k: GroupKind, n: int, r: nat)
    requires 0 <= n < 9
    ensures RowHitSum(k, n, 9 * r) == HitsInRow(k, n, r)
  {
    match k
    case Rows => RowPositions(r);
    case Cols => RowPositions(r);
    case Boxes => RowHitsBoxes(n, r);
  }

  lemma CountInRow(k: GroupKind, n: int, r: nat)
    requires 0 <= n < 9
    ensures CountIn(k, n, 9 * (r + 1)) == CountIn(k, n, 9 * r) + HitsInRow(k, n, r)
  {
    CountNine(k, n, 9 * r);
    RowHits(k, n, r);
    assert 9 * (r + 1) == 9 * r + 9;
  }

  /** Number of cells of group `n` in the first `r` rows, row by row. */
  function HitsInRows(k: GroupKind, n: int, r: nat): nat {
    if r == 0 then 0 else HitsInRows(k, n, r - 1) + HitsInRow(k, n, r - 1)
  }

  lemma {:induction false} CountInRows(k: GroupKind, n: int, r: nat)
    requires 0 <= n < 9
    ensures CountIn(k, n, 9 * r) == HitsInRows(k, n, r)
  {
    if r > 0 {
      CountInRows(k, n, r - 1);
      CountInRow(k, n, r - 1);
    }
  }

  lemma HitsInAllRows(k: GroupKind, n: int)
    requires 0 <= n < 9
    ensures HitsInRows(k, n, 9) == 9
  {
    assert HitsInRows(k, n, 9) == HitsInRow(k, n, 0) + HitsInRow(k, n, 1) + HitsInRow(k, n, 2)
           + HitsInRow(k, n, 3) + HitsInRow(k, n, 4) + HitsInRow(k, n, 5)
           + HitsInRow(k, n, 6) + HitsInRow(k, n, 7) + HitsInRow(k, n, 8);
    BandOf(0, n); BandOf(1, n); BandOf(2, n);
  }

  /** Every one of the 27 groups of a board has exactly nine cells. */
  lemma GroupSizeNine(k: GroupKind, n: int, node: seq<Cell>)
    requires |node| == CellCount && 0 <= n < 9
    ensures |FieldByNumber(k, n, node)| == 9
  {
    CountInRows(k, n, 9);
    HitsInAllRows(k, n);
    MembersCount(k, n, CellCount);
  }

  /** A digit assignment to all 81 cells obeying the Sudoku rule: no two
      distinct cells that share a group hold the same digit. */
  predicate IsSolution(sol: seq<int>) {
    && |sol| == CellCount
    && (forall j :: 0 <= j < |sol| ==> IsDigit(sol[j]))
    && forall a, b :: 0 <= a < |sol| && 0 <= b < |sol| && a != b && SharesGroup(a, b) ==> sol[a] != sol[b]
  }
}
