/** The driver `solver`: decode the puzzle, run the search until the top
    board is complete, encode the result. The source loops without bound;
    here the number of rounds is bounded by `fuel`. */
module Solver {
  import opened Seqs
  import opened Board
  import opened Groups
  import opened Validator
  import opened Search
  import opened Codec

  predicate IsPuzzle(s: string) {
    |s| == CellCount && IsPuzzleText(s)
  }

  lemma WellFormedPrintable(node: Node)
    requires WellFormed(node)
    ensures PrintableSingles(node)
  {
    forall p | 0 <= p < |node| && |node[p]| == 1 ensures IsDigit(node[p][0]) {
      assert IsCandidateList(node[p]);
    }
  }

  /** Every character is a digit. */
  predicate AllDigitChars(out: string) {
    forall p :: 0 <= p < |out| ==> '1' <= out[p] <= '9'
  }

  /** No digit twice in a row, column or box. */
  predicate GridConsistent(out: string) {
    forall a, b :: 0 <= a < |out| && 0 <= b < |out| && a != b && SharesGroup(a, b) ==> out[a] != out[b]
  }

  /** `out` agrees with the puzzle `s` at every given cell. */
  predicate KeepsGivens(s: string, out: string) {
    && |out| == |s|
    && forall p :: 0 <= p < |s| && s[p] != '.' ==> out[p] == s[p]
  }

  /** `out` prints the digit of every solved cell of `base`. */
  predicate KeepsSolvedCells(base: Node, out: string) {
    forall p :: 0 <= p < |base| && p < |out| && |base[p]| == 1 && IsDigit(base[p][0]) ==> out[p] == DigitChar(base[p][0])
  }

  /** `out` is a filled, consistent grid that keeps the solved cells of
      every board all of whose stack `tree` refines. */
  ghost predicate SoundFrom(tree: History, out: string) {
    && AllDigitChars(out)
    && GridConsistent(out)
    && forall base :: AllRefine(tree, base) ==> KeepsSolvedCells(base, out)
  }

  /** A filled grid of digits that keeps the givens of `s` and breaks no
      Sudoku rule. */
  predicate SoundOutput(s: string, out: string) {
    AllDigitChars(out) && GridConsistent(out) && KeepsGivens(s, out)
  }

  lemma SingletonSubsequence(a: seq<int>, d: int)
    requires IsSubsequence(a, [d]) && |a| == 1
    ensures a == [d]
  {
    SubsequenceMembers(a, [d]);
    assert a[0] in a;
  }

  /** A complete, consistent board prints as a grid of digits that breaks
      no Sudoku rule. */
  lemma FinalBoardConsistent(top: Node)
    requires WellFormed(top) && ValidateNode(top) && Complete(top)
    ensures PrintableSingles(top)
    ensures AllDigitChars(ToStr(top)) && GridConsistent(ToStr(top))
  {
    WellFormedPrintable(top);
    CompleteIffSolved(top);
    ValidateNodeExact(top);
    var out := ToStr(top);
    forall a, b | 0 <= a < |out| && 0 <= b < |out| && a != b && SharesGroup(a, b) ensures out[a] != out[b] {
      assert top[a] != top[b];
      assert top[a] == [top[a][0]] && top[b] == [top[b][0]];
      assert CharDigit(out[a]) == top[a][0] && CharDigit(out[b]) == top[b][0];
    }
  }

  /** A complete, consistent refinement of `base` prints every solved cell
      of `base` as it was. */
  lemma FinalBoardKeeps(top: Node, base: Node)
    requires WellFormed(top) && ValidateNode(top) && Complete(top) && Refines(top, base)
    ensures PrintableSingles(top) && KeepsSolvedCells(base, ToStr(top))
  {
    WellFormedPrintable(top);
    CompleteIffSolved(top);
    ValidateNodeExact(top);
    var out := ToStr(top);
    forall p | 0 <= p < |base| && p < |out| && |base[p]| == 1 && IsDigit(base[p][0])
      ensures out[p] == DigitChar(base[p][0])
    {
      assert base[p] == [base[p][0]];
      SingletonSubsequence(top[p], base[p][0]);
      assert CharDigit(out[p]) == top[p][0];
    }
  }

  /** The loop's stopping case: a complete top board that also passes the
      validator prints soundly. */
  lemma CompleteTopSound(tree: History)
    requires |tree| > 0 && AllWellFormed(tree) && Complete(Top(tree))
    ensures PrintableSingles(Top(tree))
    ensures ValidateNode(Top(tree)) ==> SoundFrom(tree, ToStr(Top(tree)))
  {
    var top := Top(tree);
    assert WellFormed(top);
    WellFormedPrintable(top);
    if ValidateNode(top) {
      FinalBoardConsistent(top);
      forall base | AllRefine(tree, base) ensures KeepsSolvedCells(base, ToStr(top)) {
        assert Refines(top, base);
        FinalBoardKeeps(top, base);
      }
    }
  }

  /** One round of the search keeps every board a refinement of whatever
      the whole stack refined. */
  lemma RoundRefines(tree: History)
    requires |tree| > 0 && AllWellFormed(tree)
    ensures Solve(tree, 0).Success? ==>
      forall base :: AllRefine(tree, base) ==> AllRefine(Solve(tree, 0).value, base)
  {
    forall base | AllRefine(tree, base) ensures Solve(tree, 0).Success? ==> AllRefine(Solve(tree, 0).value, base) {
      SolveRefines(tree, 0, base);
    }
  }

  /** One round of the search keeps some board of the stack allowing any
      solution that some board allowed before. */
  lemma RoundKeepsSolutions(tree: History)
    requires |tree| > 0 && AllWellFormed(tree)
    ensures forall sol :: IsSolution(sol) && SomeAdmits(tree, sol) ==>
      Solve(tree, 0).Success? && SomeAdmits(Solve(tree, 0).value, sol)
  {
    forall sol | IsSolution(sol) && SomeAdmits(tree, sol)
      ensures Solve(tree, 0).Success? && SomeAdmits(Solve(tree, 0).value, sol)
    {
      SolveKeepsSolutions(tree, 0, sol);
    }
  }

  /** The `while` loop of `solver`: stop as soon as the top board passes
      the completion test, otherwise run one more round of the search.
      Once the top board is consistent whenever complete, whatever the loop
      returns is a filled, consistent grid that keeps every solved cell. */
  function SolverLoop(tree: History, fuel: nat): (r: Result<string>)
    requires |tree| > 0 && AllWellFormed(tree)
    ensures r.Success? ==> |r.value| == CellCount
    ensures r.Success? && (Complete(Top(tree)) ==> ValidateNode(Top(tree))) ==> SoundFrom(tree, r.value)
    ensures forall sol :: IsSolution(sol) && SomeAdmits(tree, sol) ==> r != Failure(Unsolvable)
    decreases fuel
  {
    var top := Top(tree);
    if Complete(top) then
      CompleteTopSound(tree);
      Success(ToStr(top))
    else if fuel == 0 then Failure(EffortExceeded)
    else
      RoundRefines(tree);
      RoundKeepsSolutions(tree);
      match Solve(tree, 0)
      case Failure(e) => Failure(e)
      case Success(next) => SolverLoop(next, fuel - 1)
  }

  /** `solver` on a puzzle string, with at most `fuel` rounds of search. */
  function Solver(s: string, fuel: nat): (r: Result<string>)
    requires IsPuzzle(s)
    ensures r.Success? ==> |r.value| == CellCount
  {
    SolverLoop([ToArr(s)], fuel)
  }

  /** A puzzle with an unknown cell is not complete when decoded. */
  lemma OpenPuzzleIncomplete(s: string, p: nat)
    requires IsPuzzle(s) && p < |s| && s[p] == '.'
    ensures !Complete(ToArr(s))
  {
    var node := ToArr(s);
    TotalCountSingletons(node);
    assert |node[p]| == 9;
  }

  /** Whatever `solver` returns for a puzzle with an unknown cell is a
      filled grid that keeps the givens and breaks no Sudoku rule. */
  lemma SolverSound(s: string, fuel: nat)
    requires IsPuzzle(s) && exists p :: 0 <= p < |s| && s[p] == '.'
    ensures Solver(s, fuel).Success? ==> SoundOutput(s, Solver(s, fuel).value)
  {
    var p :| 0 <= p < |s| && s[p] == '.';
    OpenPuzzleIncomplete(s, p);
    var base := ToArr(s);
    RefinesRefl(base);
    assert AllRefine([base], base);
    if Solver(s, fuel).Success? {
      var out := Solver(s, fuel).value;
      assert KeepsSolvedCells(base, out);
      forall q | 0 <= q < |s| && s[q] != '.' ensures out[q] == s[q] {
        assert |base[q]| == 1;
      }
    }
  }

  /** A puzzle without unknown cells is returned unchanged, for any fuel;
      the completion test comes before any validation, so this holds even
      for a grid that breaks the Sudoku rules. */
  lemma SolverCompleteInput(s: string, fuel: nat)
    requires IsPuzzle(s) && forall p :: 0 <= p < |s| ==> s[p] != '.'
    ensures Solver(s, fuel) == Success(s)
  {
    var node := ToArr(s);
    TotalCountSingletons(node);
    StrArrRoundTrip(s);
  }

  /** A puzzle that has a solution is never reported `Unsolvable`: the
      search can run out of fuel, but it cannot empty its stack. */
  lemma SolverFindsSolvable(s: string, fuel: nat, sol: seq<int>)
    requires IsPuzzle(s) && IsSolution(sol) && Admits(ToArr(s), sol)
    ensures Solver(s, fuel) != Failure(Unsolvable)
  {
    var tree := [ToArr(s)];
    assert Admits(tree[0], sol);
    assert SomeAdmits(tree, sol);
  }
}
