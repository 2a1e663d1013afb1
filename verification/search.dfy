/** The search engine: choose a branching cell, split its candidates into
    two boards, and walk a stack of boards ("tree" in the source), popping
    inconsistent boards and pushing the two halves of a split. */
module Search {
  import opened Seqs
  import opened Board
  import opened Groups
  import opened Propagator
  import opened Validator

  /** A chronological stack of boards; the last one is being explored. */
  type History = seq<Node>

  datatype SolveError = Unsolvable | EffortExceeded

  datatype Result<T> = Success(value: T) | Failure(error: SolveError)

  /** After this many steps one call of the search hands its stack back. */
  const StepLimit: nat := 100

  predicate HasOpenCell(node: Node) {
    exists j :: 0 <= j < |node| && |node[j]| > 1
  }

  /** The least candidate count above one on the board, 0 when no cell has
      more than one candidate. */
  function MinOpen(node: Node): (L: nat)
    ensures L == 0 <==> !HasOpenCell(node)
    ensures L != 0 ==> L > 1 && exists j :: 0 <= j < |node| && |node[j]| == L
    ensures forall j :: 0 <= j < |node| && |node[j]| > 1 ==> L <= |node[j]|
  {
    if |node| == 0 then 0
    else
      var rest := MinOpen(node[1..]);
      var here := |node[0]|;
      assert forall j :: 1 <= j < |node| ==> node[j] == node[1..][j - 1];
      assert HasOpenCell(node[1..]) ==> HasOpenCell(node);
      if here <= 1 then rest
      else if rest == 0 || here <= rest then here
      else rest
  }

  /** The lowest index whose cell has exactly `L` candidates
      (`findIndex`). */
  function FirstWithCount(node: Node, L: nat): (i: nat)
    requires exists j :: 0 <= j < |node| && |node[j]| == L
    ensures i < |node| && |node[i]| == L
    ensures forall j :: 0 <= j < i ==> |node[j]| != L
  {
    if |node[0]| == L then 0
    else
      var j :| 0 <= j < |node| && |node[j]| == L;
      assert node[1..][j - 1] == node[j];
      1 + FirstWithCount(node[1..], L)
  }

  /** The branching cell: among the cells with more than one candidate, one
      with the fewest candidates, and the lowest such index. */
  function BranchIndex(node: Node): (i: nat)
    requires HasOpenCell(node)
    ensures i < |node| && |node[i]| > 1
    ensures forall j :: 0 <= j < |node| && |node[j]| > 1 ==> |node[i]| <= |node[j]|
    ensures forall j :: 0 <= j < i && |node[j]| > 1 ==> |node[i]| < |node[j]|
  {
    FirstWithCount(node, MinOpen(node))
  }

  /** The two boards of a branching step before pruning: the first keeps
      all candidates of the branching cell but the last, the second keeps
      only that last one. Every other cell is unchanged. */
  function Branch(node: Node): (r: (Node, Node))
    requires HasOpenCell(node)
    ensures var i := BranchIndex(node);
      && |r.0| == |node| && |r.1| == |node|
      && (forall j :: 0 <= j < |node| && j != i ==> r.0[j] == node[j] && r.1[j] == node[j])
      && |r.1[i]| == 1
      && r.0[i] + r.1[i] == node[i]
  {
    var i := BranchIndex(node);
    var candidates := node[i];
    assert candidates == candidates[..|candidates| - 1] + candidates[|candidates| - 1..];
    (node[i := candidates[..|candidates| - 1]], node[i := candidates[|candidates| - 1..]])
  }

  /** `move`: both halves of the split, each after one pruning pass. */
  function Move(node: Node): (r: (Node, Node))
    requires HasOpenCell(node)
    ensures Refines(r.0, node) && Refines(r.1, node)
  {
    var (updated, next) := Branch(node);
    BranchRefines(node);
    PruneNodeShrinks(updated);
    PruneNodeShrinks(next);
    RefinesTrans(PruneNode(updated), updated, node);
    RefinesTrans(PruneNode(next), next, node);
    (PruneNode(updated), PruneNode(next))
  }

  /** In a strictly increasing list the last element occurs only once,
      at the end. */
  lemma LastNotInPrefix(c: Cell)
    requires |c| > 0
    ensures StrictlyIncreasing(c) ==> c[|c| - 1] !in c[..|c| - 1]
  {
    if StrictlyIncreasing(c) {
      var prefix := c[..|c| - 1];
      forall a | 0 <= a < |prefix| ensures prefix[a] != c[|c| - 1] {
        assert prefix[a] == c[a] && c[a] < c[|c| - 1];
      }
    }
  }

  /** What `move` promises about the branching cell: the second board
      (`nextNode`) has it solved to its last candidate, and the first
      (`updatedNode`) no longer allows that candidate there. */
  lemma MoveSplitsCell(node: Node)
    requires HasOpenCell(node)
    ensures var i := BranchIndex(node);
      Move(node).1[i] == [node[i][|node[i]| - 1]]
    ensures var i := BranchIndex(node);
      IsCandidateList(node[i]) ==> node[i][|node[i]| - 1] !in Move(node).0[i]
  {
    var i := BranchIndex(node);
    var (updated, next) := Branch(node);
    var last := node[i][|node[i]| - 1];
    assert next[i] == node[i][|node[i]| - 1..] == [last];
    assert updated[i] == node[i][..|node[i]| - 1];
    LastNotInPrefix(node[i]);
    PruneNodeShrinks(updated);
    SubsequenceMembers(PruneNode(updated)[i], updated[i]);
  }

  lemma BranchRefines(node: Node)
    requires HasOpenCell(node)
    ensures Refines(Branch(node).0, node) && Refines(Branch(node).1, node)
  {
    var (updated, next) := Branch(node);
    var i := BranchIndex(node);
    forall j | 0 <= j < |node| ensures IsSubsequence(updated[j], node[j]) && IsSubsequence(next[j], node[j]) {
      SubsequenceRefl(node[j]);
      if j == i {
        PrefixSubsequence(updated[i], next[i]);
        SuffixSubsequence(updated[i], next[i]);
      }
    }
  }

  lemma {:induction false} PrefixSubsequence(a: seq<int>, b: seq<int>)
    ensures IsSubsequence(a, a + b)
    decreases |a|
  {
    if |a| > 0 {
      PrefixSubsequence(a[1..], b);
      assert (a + b)[1..] == a[1..] + b;
    }
  }

  lemma {:induction false} SuffixSubsequence(a: seq<int>, b: seq<int>)
    ensures IsSubsequence(b, a + b)
    decreases |a|
  {
    if |a| == 0 {
      assert a + b == b;
      SubsequenceRefl(b);
    } else {
      SuffixSubsequence(a[1..], b);
      assert (a + b)[1..] == a[1..] + b;
    }
  }

  /** Both boards `move` produces are well formed when its input is. */
  lemma MoveWellFormed(node: Node)
    requires HasOpenCell(node) && WellFormed(node)
    ensures WellFormed(Move(node).0) && WellFormed(Move(node).1)
  {
    RefinesWellFormed(Move(node).0, node);
    RefinesWellFormed(Move(node).1, node);
  }

  /** The split loses no solution: one of the two boards still allows any
      solution the input allowed. */
  lemma MoveKeepsSolutions(node: Node, sol: seq<int>)
    requires HasOpenCell(node) && IsSolution(sol) && Admits(node, sol)
    ensures Admits(Move(node).0, sol) || Admits(Move(node).1, sol)
  {
    var (updated, next) := Branch(node);
    var i := BranchIndex(node);
    assert sol[i] in updated[i] + next[i];
    if sol[i] in updated[i] {
      assert Admits(updated, sol);
      PruneNodeKeepsSolutions(updated, sol);
    } else {
      assert Admits(next, sol);
      PruneNodeKeepsSolutions(next, sol);
    }
  }

  function Top(tree: History): Node
    requires |tree| > 0
  {
    tree[|tree| - 1]
  }

  predicate AllWellFormed(tree: History) {
    forall t :: 0 <= t < |tree| ==> WellFormed(tree[t])
  }

  /** A consistent board that is not complete still has a cell to branch
      on, so `move` is never called without one. */
  lemma IncompleteHasOpenCell(node: Node)
    requires |node| == CellCount && ValidateNode(node) && !Complete(node)
    ensures HasOpenCell(node)
  {
    CompleteIffSolved(node);
    ValidateNodeExact(node);
    var j :| 0 <= j < |node| && |node[j]| != 1;
    assert |node[j]| != 0;
  }

  /** What one call of `solve` does before recursing. */
  datatype Step = Stop | Continue(tree: History)

  /** The body of one call of `solve` on the stack `tree` at step `i`. */
  function SolveStep(tree: History, i: nat): (s: Step)
    requires |tree| > 0 && AllWellFormed(tree)
    ensures s.Continue? ==> AllWellFormed(s.tree)
    ensures s.Continue? ==> |s.tree| < |tree| || i <= StepLimit
    ensures !ValidateNode(Top(tree)) ==>
      s.Continue? && |s.tree| == |tree| - 1 && s.tree == tree[..|tree| - 1]
    ensures ValidateNode(Top(tree)) && (Complete(Top(tree)) || i > StepLimit) ==> s.Stop?
    ensures ValidateNode(Top(tree)) && !Complete(Top(tree)) && i <= StepLimit ==>
      && s.Continue?
      && |s.tree| == |tree| + 1
      && s.tree[..|tree| - 1] == tree[..|tree| - 1]
      && Refines(s.tree[|tree| - 1], Top(tree))
      && Refines(s.tree[|tree|], Top(tree))
      && HasOpenCell(Top(tree))
      && (s.tree[|tree| - 1], s.tree[|tree|]) == Move(Top(tree))
  {
    var node := Top(tree);
    if !ValidateNode(node) then
      Continue(tree[..|tree| - 1])
    else if Complete(node) || i > StepLimit then
      Stop
    else
      IncompleteHasOpenCell(node);
      MoveWellFormed(node);
      var (updated, next) := Move(node);
      ReplaceTop(tree, updated, next);
      Continue(tree[..|tree| - 1] + [updated, next])
  }

  /** Replacing the top board by two well-formed boards keeps the rest of
      the stack and its well-formedness. */
  lemma ReplaceTop(tree: History, a: Node, b: Node)
    requires |tree| > 0 && AllWellFormed(tree) && WellFormed(a) && WellFormed(b)
    ensures var t := tree[..|tree| - 1] + [a, b];
      && |t| == |tree| + 1
      && t[..|tree| - 1] == tree[..|tree| - 1]
      && t[|tree| - 1] == a && t[|tree|] == b
      && AllWellFormed(t)
  {
    var t := tree[..|tree| - 1] + [a, b];
    assert t[..|tree| - 1] == tree[..|tree| - 1];
    forall k | 0 <= k < |t| ensures WellFormed(t[k]) {
      if k < |tree| - 1 {
        assert t[k] == tree[k];
      }
    }
  }

  /** `solve`: run steps until the top board is complete and consistent or
      the step budget is spent. The source's `tree.slice(-1)[0]` on an
      emptied stack is a crash; here it is the `Unsolvable` outcome, and it
      is the only failure: reaching the step ceiling returns the stack. */
  function Solve(tree: History, i: nat): (r: Result<History>)
    requires AllWellFormed(tree)
    ensures |tree| == 0 ==> r == Failure(Unsolvable)
    ensures r.Failure? ==> r.error == Unsolvable
    ensures r.Success? ==> |r.value| > 0 && AllWellFormed(r.value) && ValidateNode(Top(r.value))
    ensures r.Success? && Complete(Top(r.value)) ==>
      forall j :: 0 <= j < CellCount ==> |Top(r.value)[j]| == 1
    decreases if i <= StepLimit + 1 then StepLimit + 1 - i else 0, |tree|
  {
    if |tree| == 0 then Failure(Unsolvable)
    else
      match SolveStep(tree, i)
      case Stop =>
        CompleteIffSolved(Top(tree));
        Success(tree)
      case Continue(next) => Solve(next, i + 1)
  }

  /** Every board in the stack refines `base`. */
  predicate AllRefine(tree: History, base: Node) {
    forall t :: 0 <= t < |tree| ==> Refines(tree[t], base)
  }

  /** One step keeps every board of the stack a refinement of `base`. */
  lemma StepRefines(tree: History, i: nat, base: Node)
    requires |tree| > 0 && AllWellFormed(tree) && AllRefine(tree, base)
    ensures SolveStep(tree, i).Continue? ==> AllRefine(SolveStep(tree, i).tree, base)
  {
    var s := SolveStep(tree, i);
    if s.Continue? {
      var n := |tree|;
      forall t | 0 <= t < |s.tree| ensures Refines(s.tree[t], base) {
        if t < n - 1 {
          assert s.tree[t] == s.tree[..n - 1][t] == tree[t];
        } else {
          assert Refines(s.tree[t], Top(tree));
          RefinesTrans(s.tree[t], Top(tree), base);
        }
      }
    }
  }

  /** The search only ever narrows: every board it returns refines any board
      that all boards of its input refined. */
  lemma {:induction false} SolveRefines(tree: History, i: nat, base: Node)
    requires AllWellFormed(tree) && AllRefine(tree, base)
    ensures Solve(tree, i).Success? ==> AllRefine(Solve(tree, i).value, base)
    decreases if i <= StepLimit + 1 then StepLimit + 1 - i else 0, |tree|
  {
    if |tree| > 0 {
      StepRefines(tree, i, base);
      match SolveStep(tree, i)
      case Stop =>
      case Continue(next) => SolveRefines(next, i + 1, base);
    }
  }

  /** Some board of the stack still allows `sol`. */
  predicate SomeAdmits(tree: History, sol: seq<int>) {
    exists t :: 0 <= t < |tree| && Admits(tree[t], sol)
  }

  /** Popping a top board that does not allow `sol` keeps one that does. */
  lemma PopKeepsSolutions(tree: History, sol: seq<int>)
    requires |tree| > 0 && SomeAdmits(tree, sol) && !Admits(Top(tree), sol)
    ensures SomeAdmits(tree[..|tree| - 1], sol)
  {
    var t :| 0 <= t < |tree| && Admits(tree[t], sol);
    assert tree[..|tree| - 1][t] == tree[t];
  }

  /** Replacing the top board by two boards, one of which allows `sol`
      whenever the old top did, keeps a board that allows `sol`. */
  lemma PushKeepsSolutions(tree: History, next: History, sol: seq<int>)
    requires |tree| > 0 && |next| == |tree| + 1 && next[..|tree| - 1] == tree[..|tree| - 1]
    requires SomeAdmits(tree, sol)
    requires Admits(Top(tree), sol) ==> Admits(next[|tree| - 1], sol) || Admits(next[|tree|], sol)
    ensures SomeAdmits(next, sol)
  {
    var n := |tree|;
    var t :| 0 <= t < n && Admits(tree[t], sol);
    if t < n - 1 {
      assert next[t] == next[..n - 1][t] == tree[t];
    }
  }

  /** One step keeps a board that allows `sol` on the stack. */
  lemma StepKeepsSolutions(tree: History, i: nat, sol: seq<int>)
    requires |tree| > 0 && AllWellFormed(tree) && IsSolution(sol) && SomeAdmits(tree, sol)
    ensures SolveStep(tree, i).Continue? ==> SomeAdmits(SolveStep(tree, i).tree, sol)
  {
    if SolveStep(tree, i).Continue? {
      if !ValidateNode(Top(tree)) {
        if Admits(Top(tree), sol) {
          AdmitsImpliesValid(Top(tree), sol);
        }
        PopKeepsSolutions(tree, sol);
      } else {
        if Admits(Top(tree), sol) {
          MoveKeepsSolutions(Top(tree), sol);
        }
        PushKeepsSolutions(tree, SolveStep(tree, i).tree, sol);
      }
    }
  }

  /** The search never discards a solution: while some board of the stack
      allows one, the stack never runs empty, and the returned stack still
      holds a board that allows it. */
  lemma {:induction false} SolveKeepsSolutions(tree: History, i: nat, sol: seq<int>)
    requires AllWellFormed(tree) && IsSolution(sol) && SomeAdmits(tree, sol)
    ensures Solve(tree, i).Success?
    ensures SomeAdmits(Solve(tree, i).value, sol)
    decreases if i <= StepLimit + 1 then StepLimit + 1 - i else 0, |tree|
  {
    StepKeepsSolutions(tree, i, sol);
    match SolveStep(tree, i)
    case Stop =>
    case Continue(next) => SolveKeepsSolutions(next, i + 1, sol);
  }
}
