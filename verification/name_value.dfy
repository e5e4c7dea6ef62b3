/** Scoring a participant's name: every alphabet symbol adds its 1-based
    position, every other character adds nothing. */
module NameValue {
  import opened Letters

  /** What one character adds to a name's sum: `IndexOf + 1`, which is 0
      exactly for characters outside the alphabet. */
  function LetterValue(c: char): (v: nat)
    ensures v == Position(c) + 1
    ensures v <= AlphabetSize
    ensures v == 0 <==> c !in Alphabet
  {
    SearchAlphabet(c);
    IndexOf(Alphabet, c) + 1
  }

  /** The sum of the letter values of `name`. */
  function NameSum(name: string): (s: nat)
    ensures s <= 52 * |name|
    ensures s == 0 <==> forall i :: 0 <= i < |name| ==> !IsSymbol(name[i])
  {
    if |name| == 0 then 0
    else
      var rest := NameSum(name[1..]);
      assert forall i :: 1 <= i < |name| ==> name[i] == name[1..][i - 1];
      LetterValue(name[0]) + rest
  }

  /** 'A' is worth 1, 'Z' 26, 'a' 27 and 'z' 52: the score is case-sensitive. */
  lemma CaseMatters()
    ensures LetterValue('A') == 1 && LetterValue('Z') == 26
    ensures LetterValue('a') == 27 && LetterValue('z') == 52
  {
  }

  /** The score of a concatenation is the sum of the scores: the order in
      which the characters are visited does not matter. */
  lemma {:induction false} NameSumAppend(a: string, b: string)
    ensures NameSum(a + b) == NameSum(a) + NameSum(b)
  {
    if |a| == 0 {
      assert a + b == b;
    } else {
      assert (a + b)[1..] == a[1..] + b;
      NameSumAppend(a[1..], b);
    }
  }

  /** `n` copies of `c`. */
  function Repeat(c: char, n: nat): (s: string)
    ensures |s| == n
    ensures forall i :: 0 <= i < n ==> s[i] == c
  {
    if n == 0 then "" else [c] + Repeat(c, n - 1)
  }

  lemma {:induction false} NameSumRepeat(c: char, n: nat)
    ensures NameSum(Repeat(c, n)) == n * LetterValue(c)
  {
    if n > 0 {
      var v, r := LetterValue(c), Repeat(c, n);
      assert r[0] == c && r[1..] == Repeat(c, n - 1);
      NameSumRepeat(c, n - 1);
      assert NameSum(r) == v + (n - 1) * v;
      MulSucc(n - 1, v);
    }
  }

  lemma MulSucc(m: nat, v: nat)
    ensures v + m * v == (m + 1) * v
  {
  }
}
