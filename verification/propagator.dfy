/** The propagator: one pass of single-candidate elimination. A digit that
    is the only candidate of some cell is struck from every other undecided
    cell of the same row, column or box. */
module Propagator {
  import opened Seqs
  import opened Board
  import opened Groups

  /** Digit `x` is the single candidate of some cell sharing a row, column
      or box with cell `i`; cell `i` itself counts. */
  predicate FixedNear(node: Node, i: nat, x: int) {
    exists j :: 0 <= j < |node| && SharesGroup(i, j) && node[j] == [x]
  }

  /** The cells of the row, the column and the box of cell `i`, one after
      the other; each of the three includes cell `i`. */
  function PeerCells(i: nat, node: Node): (r: seq<Cell>)
    ensures forall c :: c in r <==> exists j :: 0 <= j < |node| && SharesGroup(i, j) && node[j] == c
  {
    var rows := FieldByIndex(Rows, i, node);
    var cols := FieldByIndex(Cols, i, node);
    var boxes := FieldByIndex(Boxes, i, node);
    assert forall c :: c in rows + cols + boxes <==> c in rows || c in cols || c in boxes;
    rows + cols + boxes
  }

  /** Cell `i` without the digits fixed in its row, column or box
      (`prune`). On a singleton cell this removes its own digit, which is
      why the board-level pass never calls it there. */
  function Prune(i: nat, node: Node): (r: Cell)
    requires i < |node|
    ensures IsSubsequence(r, node[i])
    ensures forall x :: x in r <==> x in node[i] && !FixedNear(node, i, x)
  {
    SinglesNear(i, node);
    RemoveAll(node[i], Singles(PeerCells(i, node)))
  }

  lemma SinglesNear(i: nat, node: Node)
    ensures forall x :: x in Singles(PeerCells(i, node)) <==> FixedNear(node, i, x)
  {
    var peers := PeerCells(i, node);
    forall x ensures x in Singles(peers) <==> FixedNear(node, i, x) {
      assert x in Singles(peers) <==> [x] in peers;
    }
  }

  /** One elimination pass over the whole board (`pruneNode`): solved cells
      stay as they are, every other cell is pruned against the board as it
      was before the pass. */
  function PruneNode(node: Node): (r: Node)
    ensures |r| == |node|
    ensures forall j :: 0 <= j < |node| && |node[j]| == 1 ==> r[j] == node[j]
    ensures forall j :: 0 <= j < |node| ==> IsSubsequence(r[j], node[j])
    ensures forall j, x :: 0 <= j < |node| && |node[j]| != 1 ==>
      (x in r[j] <==> x in node[j] && !FixedNear(node, j, x))
  {
    seq(|node|, j requires 0 <= j < |node| => if |node[j]| == 1 then node[j] else Prune(j, node))
  }

  /** Candidate counts never grow: per cell and over the whole board. */
  lemma PruneNodeShrinks(node: Node)
    ensures Refines(PruneNode(node), node)
    ensures forall j :: 0 <= j < |node| ==> |PruneNode(node)[j]| <= |node[j]|
    ensures TotalCount(PruneNode(node)) <= TotalCount(node)
  {
    var r := PruneNode(node);
    forall j | 0 <= j < |node| ensures |r[j]| <= |node[j]| {
      SubsequenceMembers(r[j], node[j]);
    }
    RefinesTotalCount(r, node);
  }

  /** Pruning a board of ordered digit lists yields ordered digit lists. */
  lemma PruneNodeWellFormed(node: Node)
    requires WellFormed(node)
    ensures WellFormed(PruneNode(node))
  {
    RefinesWellFormed(PruneNode(node), node);
  }

  /** Pruning never rules out a solution the board still allowed: a digit
      fixed at a peer cannot be the solution's digit of this cell. */
  lemma PruneNodeKeepsSolutions(node: Node, sol: seq<int>)
    requires IsSolution(sol) && Admits(node, sol)
    ensures Admits(PruneNode(node), sol)
  {
  }
}
