/** The textual codec: an 81-character row-major string, a digit '1'..'9'
    for a given cell and '.' for an unknown one, to and from a board. */
module Codec {
  import opened Seqs
  import opened Board

  predicate IsPuzzleChar(ch: char) {
    ch == '.' || '1' <= ch <= '9'
  }

  predicate IsPuzzleText(s: string) {
    forall p :: 0 <= p < |s| ==> IsPuzzleChar(s[p])
  }

  function DigitChar(d: int): (ch: char)
    requires IsDigit(d)
    ensures '1' <= ch <= '9'
  {
    ('0' as int + d) as char
  }

  function CharDigit(ch: char): (d: int)
    requires '1' <= ch <= '9'
    ensures IsDigit(d) && DigitChar(d) == ch
  {
    ch as int - '0' as int
  }

  /** `toArr`: '.' becomes all nine candidates, a digit a solved cell. */
  function ToArr(s: string): (node: Node)
    requires IsPuzzleText(s)
    ensures |node| == |s|
    ensures forall p :: 0 <= p < |s| ==> IsCandidateList(node[p])
    ensures forall p :: 0 <= p < |s| ==> (s[p] == '.' <==> |node[p]| == 9)
    ensures forall p :: 0 <= p < |s| && s[p] != '.' ==> |node[p]| == 1 && IsDigit(node[p][0]) && DigitChar(node[p][0]) == s[p]
  {
    seq(|s|, p requires 0 <= p < |s| => if s[p] == '.' then AllDigits else [CharDigit(s[p])])
  }

  /** Every single candidate on the board is a digit, so it prints as one
      character. */
  predicate PrintableSingles(node: Node) {
    forall p :: 0 <= p < |node| && |node[p]| == 1 ==> IsDigit(node[p][0])
  }

  /** `toStr`: '.' for an undecided cell, '?' for a cell without
      candidates, the digit for a solved cell. */
  function ToStr(node: Node): (s: string)
    requires PrintableSingles(node)
    ensures |s| == |node|
    ensures forall p :: 0 <= p < |node| ==> (s[p] == '.' <==> |node[p]| > 1) && (s[p] == '?' <==> |node[p]| == 0)
    ensures forall p :: 0 <= p < |node| && |node[p]| == 1 ==> '1' <= s[p] <= '9' && CharDigit(s[p]) == node[p][0]
  {
    seq(|node|, p requires 0 <= p < |node| =>
      if |node[p]| > 1 then '.' else if |node[p]| < 1 then '?' else DigitChar(node[p][0]))
  }

  /** Decoding then encoding gives back the puzzle text. */
  lemma StrArrRoundTrip(s: string)
    requires IsPuzzleText(s)
    ensures PrintableSingles(ToArr(s)) && ToStr(ToArr(s)) == s
  {
    var node := ToArr(s);
    forall p | 0 <= p < |s| ensures ToStr(node)[p] == s[p] {
      if s[p] != '.' {
        assert CharDigit(ToStr(node)[p]) == node[p][0];
      }
    }
  }

  /** A board whose cells are all either solved or fully open survives
      encoding then decoding. */
  lemma ArrStrRoundTrip(node: Node)
    requires forall p :: 0 <= p < |node| ==> node[p] == AllDigits || (|node[p]| == 1 && IsDigit(node[p][0]))
    ensures PrintableSingles(node) && IsPuzzleText(ToStr(node)) && ToArr(ToStr(node)) == node
  {
    var s := ToStr(node);
    forall p | 0 <= p < |node| ensures ToArr(s)[p] == node[p] {
      if |node[p]| == 1 {
        assert node[p] == [node[p][0]];
      }
    }
  }
}
