/** The validator: a group is consistent when none of its cells has run out
    of candidates and no digit is fixed in two of its cells; a board is
    consistent when all 27 groups are. */
module Validator {
  import opened Seqs
  import opened Board
  import opened Groups

  predicate NoEmptyCell(cells: seq<Cell>) {
    forall a :: 0 <= a < |cells| ==> |cells[a]| != 0
  }

  /** No two distinct positions hold the same single candidate. */
  predicate NoRepeatedFixed(cells: seq<Cell>) {
    forall a, b :: 0 <= a < |cells| && 0 <= b < |cells| && a != b && |cells[a]| == 1 && |cells[b]| == 1 ==>
      cells[a] != cells[b]
  }

  /** The list of fixed digits has no repetition exactly when no digit is
      fixed in two cells. */
  lemma {:induction false} SinglesDistinct(cells: seq<Cell>)
    ensures Distinct(Singles(cells)) <==> NoRepeatedFixed(cells)
    decreases |cells|
  {
    if |cells| > 0 {
      var rest := cells[1..];
      SinglesDistinct(rest);
      if NoRepeatedFixed(cells) {
        NoRepeatedTail(cells);
      }
      if |cells[0]| == 1 {
        var x := cells[0][0];
        assert cells[0] == [x];
        var s := Singles(cells);
        assert s == [x] + Singles(rest);
        assert s[1..] == Singles(rest);
        DistinctCons(s);
        if [x] in rest {
          FixedHeadRepeated(cells);
        } else if NoRepeatedFixed(rest) {
          NoRepeatedConsFixed(cells);
        }
      } else {
        assert Singles(cells) == Singles(rest);
        if NoRepeatedFixed(rest) {
          NoRepeatedConsOpen(cells);
        }
      }
    }
  }

  lemma NoRepeatedTail(cells: seq<Cell>)
    requires |cells| > 0 && NoRepeatedFixed(cells)
    ensures NoRepeatedFixed(cells[1..])
  {
    var rest := cells[1..];
    forall a, b | 0 <= a < |rest| && 0 <= b < |rest| && a != b && |rest[a]| == 1 && |rest[b]| == 1
      ensures rest[a] != rest[b]
    {
      assert rest[a] == cells[a + 1] && rest[b] == cells[b + 1];
    }
  }

  lemma NoRepeatedConsOpen(cells: seq<Cell>)
    requires |cells| > 0 && |cells[0]| != 1 && NoRepeatedFixed(cells[1..])
    ensures NoRepeatedFixed(cells)
  {
    var rest := cells[1..];
    forall a, b | 0 <= a < |cells| && 0 <= b < |cells| && a != b && |cells[a]| == 1 && |cells[b]| == 1
      ensures cells[a] != cells[b]
    {
      assert cells[a] == rest[a - 1] && cells[b] == rest[b - 1];
    }
  }

  lemma NoRepeatedConsFixed(cells: seq<Cell>)
    requires |cells| > 0 && cells[0] !in cells[1..] && NoRepeatedFixed(cells[1..])
    ensures NoRepeatedFixed(cells)
  {
    var rest := cells[1..];
    forall a, b | 0 <= a < |cells| && 0 <= b < |cells| && a != b && |cells[a]| == 1 && |cells[b]| == 1
      ensures cells[a] != cells[b]
    {
      if a == 0 {
        assert cells[b] == rest[b - 1];
      } else if b == 0 {
        assert cells[a] == rest[a - 1];
      } else {
        assert cells[a] == rest[a - 1] && cells[b] == rest[b - 1];
      }
    }
  }

  lemma FixedHeadRepeated(cells: seq<Cell>)
    requires |cells| > 0 && |cells[0]| == 1 && cells[0] in cells[1..]
    ensures !NoRepeatedFixed(cells)
  {
    var b :| 0 <= b < |cells| - 1 && cells[1..][b] == cells[0];
    assert cells[b + 1] == cells[0];
  }

  /** `validate`: no duplicate among the fixed digits (their count equals
      the size of their set) and no cell without candidates. */
  function Validate(field: seq<Cell>): (r: bool)
    ensures r <==> NoEmptyCell(field) && NoRepeatedFixed(field)
  {
    var singles := Singles(field);
    DistinctIffSetSize(singles);
    SinglesDistinct(field);
    var hasDuplicates := |singles| != |ToSet(singles)|;
    var hasUnsolvables := exists a :: 0 <= a < |field| && |field[a]| == 0;
    !hasDuplicates && !hasUnsolvables
  }

  /** `validateNode`: all nine rows, nine columns and nine boxes pass. */
  function ValidateNode(node: Node): bool {
    forall n | 0 <= n < 9 ::
      && Validate(FieldByNumber(Rows, n, node))
      && Validate(FieldByNumber(Cols, n, node))
      && Validate(FieldByNumber(Boxes, n, node))
  }

  /** No two distinct cells sharing a row, column or box are fixed to the
      same digit. */
  predicate PeersDistinct(node: Node) {
    forall a, b ::
      (0 <= a < |node| && 0 <= b < |node| && a != b && SharesGroup(a, b)
       && |node[a]| == 1 && |node[b]| == 1) ==> node[a] != node[b]
  }

  /** Every cell of group `n` of kind `k` has a candidate. */
  predicate GroupNonEmpty(k: GroupKind, n: int, node: Node) {
    forall j :: 0 <= j < |node| && GroupOf(k, j) == n ==> |node[j]| != 0
  }

  /** No two cells of group `n` of kind `k` are fixed to the same digit. */
  predicate GroupNoRepeat(k: GroupKind, n: int, node: Node) {
    forall a, b ::
      (0 <= a < |node| && 0 <= b < |node| && a != b && GroupOf(k, a) == n && GroupOf(k, b) == n
       && |node[a]| == 1 && |node[b]| == 1) ==> node[a] != node[b]
  }

  /** One group passes exactly when its own cells are non-empty and no two
      of them are fixed to the same digit, stated on board indices. */
  lemma GroupValid(k: GroupKind, n: int, node: Node)
    ensures Validate(FieldByNumber(k, n, node)) <==> GroupNonEmpty(k, n, node) && GroupNoRepeat(k, n, node)
  {
    var f := FieldByNumber(k, n, node);
    if Validate(f) {
      FieldNonEmpty(k, n, node);
      FieldNoRepeat(k, n, node);
    } else {
      GroupInvalid(k, n, node);
    }
  }

  lemma FieldNonEmpty(k: GroupKind, n: int, node: Node)
    requires NoEmptyCell(FieldByNumber(k, n, node))
    ensures GroupNonEmpty(k, n, node)
  {
    var f := FieldByNumber(k, n, node);
    var m := Members(k, n, |node|);
    forall j | 0 <= j < |node| && GroupOf(k, j) == n ensures |node[j]| != 0 {
      assert j in m;
      var t :| 0 <= t < |m| && m[t] == j;
      assert f[t] == node[j];
    }
  }

  lemma FieldNoRepeat(k: GroupKind, n: int, node: Node)
    requires NoRepeatedFixed(FieldByNumber(k, n, node))
    ensures GroupNoRepeat(k, n, node)
  {
    var f := FieldByNumber(k, n, node);
    var m := Members(k, n, |node|);
    forall a, b | 0 <= a < |node| && 0 <= b < |node| && a != b && GroupOf(k, a) == n && GroupOf(k, b) == n
      && |node[a]| == 1 && |node[b]| == 1
      ensures node[a] != node[b]
    {
      assert a in m && b in m;
      var t :| 0 <= t < |m| && m[t] == a;
      var u :| 0 <= u < |m| && m[u] == b;
      assert f[t] == node[a] && f[u] == node[b];
    }
  }

  lemma GroupInvalid(k: GroupKind, n: int, node: Node)
    requires !Validate(FieldByNumber(k, n, node))
    ensures !(GroupNonEmpty(k, n, node) && GroupNoRepeat(k, n, node))
  {
    var f := FieldByNumber(k, n, node);
    if !NoEmptyCell(f) {
      GroupEmptyCell(k, n, node);
    } else {
      GroupRepeatedFixed(k, n, node);
    }
  }

  lemma GroupEmptyCell(k: GroupKind, n: int, node: Node)
    requires !NoEmptyCell(FieldByNumber(k, n, node))
    ensures !GroupNonEmpty(k, n, node)
  {
    var f := FieldByNumber(k, n, node);
    var m := Members(k, n, |node|);
    var t :| 0 <= t < |f| && |f[t]| == 0;
    assert |node[m[t]]| == 0 && GroupOf(k, m[t]) == n;
  }

  lemma GroupRepeatedFixed(k: GroupKind, n: int, node: Node)
    requires !NoRepeatedFixed(FieldByNumber(k, n, node))
    ensures !GroupNoRepeat(k, n, node)
  {
    var f := FieldByNumber(k, n, node);
    var m := Members(k, n, |node|);
    var t, u :| 0 <= t < |f| && 0 <= u < |f| && t != u && |f[t]| == 1 && |f[u]| == 1 && f[t] == f[u];
    var a, b := m[t], m[u];
    if t < u { assert a < b; } else { assert b < a; }
    assert 0 <= a < |node| && GroupOf(k, a) == n && node[a] == f[t];
    assert 0 <= b < |node| && GroupOf(k, b) == n && node[b] == f[u];
  }

  /** `validateNode` holds exactly when every one of the 27 groups passes. */
  lemma ValidateNodeGroups(node: Node)
    ensures ValidateNode(node) <==>
      forall k, n :: 0 <= n < 9 ==> GroupNonEmpty(k, n, node) && GroupNoRepeat(k, n, node)
  {
    if ValidateNode(node) {
      ValidNodeGroups(node);
    } else {
      InvalidNodeGroup(node);
    }
  }

  lemma ValidNodeGroups(node: Node)
    requires ValidateNode(node)
    ensures forall k, n :: 0 <= n < 9 ==> GroupNonEmpty(k, n, node) && GroupNoRepeat(k, n, node)
  {
    forall k, n | 0 <= n < 9 ensures GroupNonEmpty(k, n, node) && GroupNoRepeat(k, n, node) {
      ValidNodeGroup(node, k, n);
    }
  }

  lemma ValidNodeGroup(node: Node, k: GroupKind, n: int)
    requires ValidateNode(node) && 0 <= n < 9
    ensures GroupNonEmpty(k, n, node) && GroupNoRepeat(k, n, node)
  {
    var fine := Validate(FieldByNumber(Rows, n, node)) && Validate(FieldByNumber(Cols, n, node))
      && Validate(FieldByNumber(Boxes, n, node));
    assert fine;
    GroupValid(k, n, node);
  }

  lemma InvalidNodeGroup(node: Node)
    requires !ValidateNode(node)
    ensures exists k, n :: 0 <= n < 9 && !(GroupNonEmpty(k, n, node) && GroupNoRepeat(k, n, node))
  {
    var n :| 0 <= n < 9 && !(Validate(FieldByNumber(Rows, n, node)) && Validate(FieldByNumber(Cols, n, node))
           && Validate(FieldByNumber(Boxes, n, node)));
    if !Validate(FieldByNumber(Rows, n, node)) {
      GroupValid(Rows, n, node);
    } else if !Validate(FieldByNumber(Cols, n, node)) {
      GroupValid(Cols, n, node);
    } else {
      GroupValid(Boxes, n, node);
    }
  }

  lemma GroupsToBoard(node: Node)
    requires |node| == CellCount
    requires forall k, n :: 0 <= n < 9 ==> GroupNonEmpty(k, n, node) && GroupNoRepeat(k, n, node)
    ensures NoEmptyCell(node) && PeersDistinct(node)
  {
    forall j | 0 <= j < |node| ensures |node[j]| != 0 {
      assert GroupNonEmpty(Rows, Row(j), node);
    }
    forall a, b | 0 <= a < |node| && 0 <= b < |node| && a != b && SharesGroup(a, b)
      && |node[a]| == 1 && |node[b]| == 1
      ensures node[a] != node[b]
    {
      if Row(a) == Row(b) {
        assert GroupNoRepeat(Rows, Row(a), node);
        assert GroupOf(Rows, a) == Row(a) && GroupOf(Rows, b) == Row(a);
      } else if Col(a) == Col(b) {
        assert GroupNoRepeat(Cols, Col(a), node);
        assert GroupOf(Cols, a) == Col(a) && GroupOf(Cols, b) == Col(a);
      } else {
        assert GroupNoRepeat(Boxes, Box(a), node);
        assert GroupOf(Boxes, a) == Box(a) && GroupOf(Boxes, b) == Box(a);
      }
    }
  }

  lemma BoardToGroups(node: Node)
    requires NoEmptyCell(node) && PeersDistinct(node)
    ensures forall k, n :: 0 <= n < 9 ==> GroupNonEmpty(k, n, node) && GroupNoRepeat(k, n, node)
  {
    forall k, n | 0 <= n < 9 ensures GroupNoRepeat(k, n, node) {
      forall a, b | 0 <= a < |node| && 0 <= b < |node| && a != b && GroupOf(k, a) == n && GroupOf(k, b) == n
        && |node[a]| == 1 && |node[b]| == 1
        ensures node[a] != node[b]
      {
        assert SharesGroup(a, b);
      }
    }
  }

  /** Exact characterisation of a consistent board: `validateNode` holds
      iff no cell is empty and no two cells that share a row, column or box
      are fixed to the same digit. */
  lemma ValidateNodeExact(node: Node)
    requires |node| == CellCount
    ensures ValidateNode(node) <==> NoEmptyCell(node) && PeersDistinct(node)
  {
    ValidateNodeGroups(node);
    if ValidateNode(node) {
      GroupsToBoard(node);
    }
    if NoEmptyCell(node) && PeersDistinct(node) {
      BoardToGroups(node);
    }
  }

  /** A board that still allows a full solution is consistent. */
  lemma AdmitsImpliesValid(node: Node, sol: seq<int>)
    requires |node| == CellCount && IsSolution(sol) && Admits(node, sol)
    ensures ValidateNode(node)
  {
    assert NoEmptyCell(node);
    forall a, b | 0 <= a < |node| && 0 <= b < |node| && a != b && SharesGroup(a, b)
      && |node[a]| == 1 && |node[b]| == 1
      ensures node[a] != node[b]
    {
      assert node[a] == [sol[a]] && node[b] == [sol[b]];
    }
    ValidateNodeExact(node);
  }

  /** On a consistent board, the completion test (81 candidates in total)
      holds exactly when every cell is solved. */
  lemma CompleteIffSolved(node: Node)
    requires |node| == CellCount && ValidateNode(node)
    ensures Complete(node) <==> forall j :: 0 <= j < |node| ==> |node[j]| == 1
  {
    ValidateNodeExact(node);
    TotalCountSingletons(node);
  }
}
