/** The cell/board model: a board ("node") is 81 cells in row-major order,
    each cell the ordered list of digits still possible there. */
module Board {
  import opened Seqs

  /** Candidate digits of one cell, in order. Empty means a contradiction,
      one element means the cell is solved. */
  type Cell = seq<int>

  /** A board: cell `9 * row + col` holds the candidates at (row, col). */
  type Node = seq<Cell>

  const CellCount: nat := 81

  /** The candidates of an unknown cell of the puzzle. */
  const AllDigits: Cell := [1, 2, 3, 4, 5, 6, 7, 8, 9]

  predicate IsDigit(d: int) {
    1 <= d <= 9
  }

  /** Digits 1..9 in strictly increasing order, the shape every cell the
      engine builds has. */
  predicate IsCandidateList(c: Cell) {
    && (forall a :: 0 <= a < |c| ==> IsDigit(c[a]))
    && StrictlyIncreasing(c)
  }

  predicate WellFormed(node: Node) {
    && |node| == CellCount
    && forall j :: 0 <= j < |node| ==> IsCandidateList(node[j])
  }

  /** The digits of the singleton cells, in order: the source's
      `filter((x) => x.length === 1).flat()`. */
  function Singles(cells: seq<Cell>): (r: seq<int>)
    ensures forall x :: x in r <==> [x] in cells
  {
    if |cells| == 0 then []
    else
      assert cells == [cells[0]] + cells[1..];
      assert |cells[0]| == 1 ==> cells[0] == [cells[0][0]];
      (if |cells[0]| == 1 then cells[0] else []) + Singles(cells[1..])
  }

  /** Number of candidates over the whole board: `node.flat().length`. */
  function TotalCount(node: seq<Cell>): nat {
    if |node| == 0 then 0 else |node[0]| + TotalCount(node[1..])
  }

  /** The completion test of the search: 81 candidates in total. */
  predicate Complete(node: Node) {
    TotalCount(node) == CellCount
  }

  /** Every cell of `node` kept only some of the candidates of the same cell
      of `base`, in their order. */
  predicate Refines(node: Node, base: Node) {
    && |node| == |base|
    && forall j :: 0 <= j < |node| ==> IsSubsequence(node[j], base[j])
  }

  /** The digit assignment `sol` is still possible on `node`. */
  predicate Admits(node: Node, sol: seq<int>) {
    && |node| == |sol|
    && forall j :: 0 <= j < |node| ==> sol[j] in node[j]
  }

  /** On a board without empty cells, the candidate total equals the number
      of cells exactly when every cell is solved; it is never smaller. */
  lemma {:induction false} TotalCountSingletons(node: seq<Cell>)
    requires forall j :: 0 <= j < |node| ==> |node[j]| != 0
    ensures TotalCount(node) >= |node|
    ensures TotalCount(node) == |node| <==> forall j :: 0 <= j < |node| ==> |node[j]| == 1
    decreases |node|
  {
    if |node| > 0 {
      var t := node[1..];
      assert forall j :: 0 <= j < |t| ==> t[j] == node[j + 1];
      TotalCountSingletons(t);
      if forall j :: 0 <= j < |t| ==> |t[j]| == 1 {
        if |node[0]| == 1 {
          forall j | 0 <= j < |node| ensures |node[j]| == 1 {
            if j > 0 { assert node[j] == t[j - 1]; }
          }
        }
      } else {
        var j :| 0 <= j < |t| && |t[j]| != 1;
        assert |node[j + 1]| != 1;
      }
    }
  }

  /** A refining board never has more candidates in total. */
  lemma {:induction false} RefinesTotalCount(node: Node, base: Node)
    requires Refines(node, base)
    ensures TotalCount(node) <= TotalCount(base)
    decreases |node|
  {
    if |node| > 0 {
      SubsequenceMembers(node[0], base[0]);
      assert Refines(node[1..], base[1..]) by {
        forall j | 0 <= j < |node| - 1 ensures IsSubsequence(node[1..][j], base[1..][j]) {
          assert node[1..][j] == node[j + 1] && base[1..][j] == base[j + 1];
        }
      }
      RefinesTotalCount(node[1..], base[1..]);
    }
  }

  lemma RefinesRefl(node: Node)
    ensures Refines(node, node)
  {
    forall j | 0 <= j < |node| ensures IsSubsequence(node[j], node[j]) {
      SubsequenceRefl(node[j]);
    }
  }

  lemma RefinesTrans(a: Node, b: Node, c: Node)
    requires Refines(a, b) && Refines(b, c)
    ensures Refines(a, c)
  {
    forall j | 0 <= j < |a| ensures IsSubsequence(a[j], c[j]) {
      SubsequenceTrans(a[j], b[j], c[j]);
    }
  }

  /** Refining a well-formed board keeps it well formed. */
  lemma RefinesWellFormed(node: Node, base: Node)
    requires Refines(node, base) && WellFormed(base)
    ensures WellFormed(node)
  {
    forall j | 0 <= j < |node| ensures IsCandidateList(node[j]) {
      SubsequenceMembers(node[j], base[j]);
      SubsequenceIncreasing(node[j], base[j]);
      forall a | 0 <= a < |node[j]| ensures IsDigit(node[j][a]) {
        assert node[j][a] in base[j];
      }
    }
  }
}
