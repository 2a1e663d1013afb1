/** Order-preserving list helpers shared by the Sudoku model.

    A cell of the board is an ordered list of candidate digits, and every
    operation of the engine keeps that order, so "a cell lost candidates" is
    modelled as "the new list is a subsequence of the old one" rather than as
    a subset of sets. */
module Seqs {

  /** `a` is obtained from `b` by deleting elements, without reordering. */
  predicate IsSubsequence(a: seq<int>, b: seq<int>)
    decreases |b|
  {
    if |a| == 0 then true
    else if |b| == 0 then false
    else (a[0] == b[0] && IsSubsequence(a[1..], b[1..])) || IsSubsequence(a, b[1..])
  }

  predicate StrictlyIncreasing(s: seq<int>) {
    forall a, b :: 0 <= a < b < |s| ==> s[a] < s[b]
  }

  /** No value occurs twice. */
  predicate Distinct(s: seq<int>) {
    forall a, b :: 0 <= a < |s| && 0 <= b < |s| && a != b ==> s[a] != s[b]
  }

  lemma {:induction false} SubsequenceRefl(a: seq<int>)
    ensures IsSubsequence(a, a)
    decreases |a|
  {
    if |a| > 0 {
      SubsequenceRefl(a[1..]);
    }
  }

  /** A subsequence is no longer than the list it came from and holds only
      values of that list. */
  lemma {:induction false} SubsequenceMembers(a: seq<int>, b: seq<int>)
    requires IsSubsequence(a, b)
    ensures |a| <= |b|
    ensures forall x :: x in a ==> x in b
    decreases |b|
  {
    if |a| > 0 {
      if a[0] == b[0] && IsSubsequence(a[1..], b[1..]) {
        SubsequenceMembers(a[1..], b[1..]);
        assert a == [a[0]] + a[1..];
        assert b == [b[0]] + b[1..];
      } else {
        SubsequenceMembers(a, b[1..]);
        assert b == [b[0]] + b[1..];
      }
    }
  }

  /** Dropping the head of a subsequence keeps it a subsequence. */
  lemma {:induction false} SubsequenceTail(a: seq<int>, b: seq<int>)
    requires |a| > 0 && IsSubsequence(a, b)
    ensures IsSubsequence(a[1..], b)
    decreases |b|
  {
    if !(a[0] == b[0] && IsSubsequence(a[1..], b[1..])) {
      SubsequenceTail(a, b[1..]);
    }
  }

  lemma {:induction false} SubsequenceTrans(a: seq<int>, b: seq<int>, c: seq<int>)
    requires IsSubsequence(a, b) && IsSubsequence(b, c)
    ensures IsSubsequence(a, c)
    decreases |c|
  {
    if |a| > 0 {
      if b[0] == c[0] && IsSubsequence(b[1..], c[1..]) {
        if a[0] == b[0] && IsSubsequence(a[1..], b[1..]) {
          SubsequenceTrans(a[1..], b[1..], c[1..]);
        } else {
          SubsequenceTrans(a, b[1..], c[1..]);
        }
      } else {
        SubsequenceTrans(a, b, c[1..]);
      }
    }
  }

  /** Deleting elements of a strictly increasing list leaves it strictly
      increasing. */
  lemma {:induction false} SubsequenceIncreasing(a: seq<int>, b: seq<int>)
    requires IsSubsequence(a, b) && StrictlyIncreasing(b)
    ensures StrictlyIncreasing(a)
    decreases |b|
  {
    if |a| > 0 {
      var b' := b[1..];
      assert StrictlyIncreasing(b') by {
        forall p, q | 0 <= p < q < |b'| ensures b'[p] < b'[q] {
          assert b'[p] == b[p + 1] && b'[q] == b[q + 1];
        }
      }
      if a[0] == b[0] && IsSubsequence(a[1..], b') {
        SubsequenceIncreasing(a[1..], b');
        SubsequenceMembers(a[1..], b');
        forall p, q | 0 <= p < q < |a| ensures a[p] < a[q] {
          assert a[q] == a[1..][q - 1];
          if p == 0 {
            assert a[q] in b';
            var k :| 0 <= k < |b'| && b'[k] == a[q];
            assert b[k + 1] == a[q];
          } else {
            assert a[p] == a[1..][p - 1];
          }
        }
      } else {
        SubsequenceIncreasing(a, b');
      }
    }
  }

  /** The list `s` without the values listed in `banned`, in the original
      order (`s.filter(x => !banned.includes(x))`). */
  function RemoveAll(s: seq<int>, banned: seq<int>): (r: seq<int>)
    ensures IsSubsequence(r, s)
    ensures forall x :: x in r <==> x in s && x !in banned
  {
    if |s| == 0 then []
    else
      var rest := RemoveAll(s[1..], banned);
      assert s == [s[0]] + s[1..];
      if s[0] in banned then rest
      else
        assert ([s[0]] + rest)[1..] == rest;
        [s[0]] + rest
  }

  /** The set of values of a list (`new Set(s)`). */
  function ToSet(s: seq<int>): (r: set<int>)
    ensures forall x :: x in r <==> x in s
    ensures |r| <= |s|
  {
    if |s| == 0 then {}
    else
      assert s == [s[0]] + s[1..];
      {s[0]} + ToSet(s[1..])
  }

  lemma DistinctCons(s: seq<int>)
    requires |s| > 0
    ensures Distinct(s) <==> s[0] !in s[1..] && Distinct(s[1..])
  {
    var t := s[1..];
    if s[0] in t {
      var k :| 0 <= k < |t| && t[k] == s[0];
      assert s[k + 1] == s[0];
    }
    if s[0] !in t && Distinct(t) {
      forall a, b | 0 <= a < |s| && 0 <= b < |s| && a != b ensures s[a] != s[b] {
        if a == 0 {
          assert s[b] == t[b - 1];
        } else if b == 0 {
          assert s[a] == t[a - 1];
        } else {
          assert s[a] == t[a - 1] && s[b] == t[b - 1];
        }
      }
    }
    if Distinct(s) {
      forall a, b | 0 <= a < |t| && 0 <= b < |t| && a != b ensures t[a] != t[b] {
        assert t[a] == s[a + 1] && t[b] == s[b + 1];
      }
    }
  }

  /** A list has no repeated value exactly when its set of values is as large
      as the list itself: the test `s.length !== new Set(s).size`. */
  lemma {:induction false} DistinctIffSetSize(s: seq<int>)
    ensures Distinct(s) <==> |ToSet(s)| == |s|
    decreases |s|
  {
    if |s| > 0 {
      var t := s[1..];
      DistinctIffSetSize(t);
      DistinctCons(s);
      if s[0] in t {
        assert ToSet(s) == ToSet(t);
      } else {
        assert ToSet(s) == {s[0]} + ToSet(t);
        assert s[0] !in ToSet(t);
      }
    }
  }
}
