/** Slices and case folding of ASCII text. */
module AsciiText {

  /** `s.slice(0, n)`. */
  function Slice(s: string, n: nat): string {
    if n <= |s| then s[..n] else s
  }

  /** `s.slice(n)`. */
  function Drop(s: string, n: nat): string {
    if n <= |s| then s[n..] else []
  }

  /** Case folding, on ASCII letters. */
  function UpperChar(c: char): char {
    if 'a' <= c <= 'z' then (c as int - 32) as char else c
  }

  function LowerChar(c: char): char {
    if 'A' <= c <= 'Z' then (c as int + 32) as char else c
  }

  function Upper(s: string): (r: string)
    ensures |r| == |s| && forall i :: 0 <= i < |s| ==> r[i] == UpperChar(s[i])
  {
    seq(|s|, i requires 0 <= i < |s| => UpperChar(s[i]))
  }

  function Lower(s: string): (r: string)
    ensures |r| == |s| && forall i :: 0 <= i < |s| ==> r[i] == LowerChar(s[i])
  {
    seq(|s|, i requires 0 <= i < |s| => LowerChar(s[i]))
  }

  /** The two alphabets fold into each other, letter by letter, and nothing else folds. */
  lemma {:induction false} FoldingIs(c: char)
    ensures 'a' <= c <= 'z' ==>
      'A' <= UpperChar(c) <= 'Z' && UpperChar(c) as int - 'A' as int == c as int - 'a' as int && LowerChar(UpperChar(c)) == c
    ensures 'A' <= c <= 'Z' ==>
      'a' <= LowerChar(c) <= 'z' && LowerChar(c) as int - 'a' as int == c as int - 'A' as int && UpperChar(LowerChar(c)) == c
    ensures !('a' <= c <= 'z') ==> UpperChar(c) == c
    ensures !('A' <= c <= 'Z') ==> LowerChar(c) == c
  {
  }
}
