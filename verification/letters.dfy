/** The fixed 52-symbol alphabet shared by name scoring and the shift
    cipher, and C#'s character search over a string. */
module Letters {

  /** The `n` ASCII characters with consecutive codes from `first` on. */
  function Run(first: int, n: nat): (s: string)
    requires 0 <= first && first + n <= 128
    ensures |s| == n
    ensures forall i :: 0 <= i < n ==> s[i] == (first + i) as char
  {
    if n == 0 then [] else Run(first, n - 1) + [(first + n - 1) as char]
  }

  /** The 26 upper-case and the 26 lower-case ASCII letters, in code order. */
  const Upper: string := Run('A' as int, 26)
  const Lower: string := Run('a' as int, 26)

  /** Upper-case A-Z followed by lower-case a-z; the source declares this
      52-character literal in each of the three methods that use it. */
  const Alphabet: string := Upper + Lower

  /** The alphabet is character for character the source's literal. */
  lemma AlphabetIsSourceLiteral()
    ensures Alphabet == "ABCDEFGHIJKLMNOPQRSTUVWXYZ" + "abcdefghijklmnopqrstuvwxyz"
  {
    UpperIsLiteral();
    LowerIsLiteral();
  }

  lemma UpperIsLiteral()
    ensures Upper == "ABCDEFGHIJKLMNOPQRSTUVWXYZ"
  {
  }

  lemma LowerIsLiteral()
    ensures Lower == "abcdefghijklmnopqrstuvwxyz"
  {
  }

  const AlphabetSize: nat := 52

  /** C#'s `string.IndexOf(char)`: the first position of `c` in `s`, or -1
      when `c` does not occur. */
  function IndexOf(s: string, c: char): (r: int)
    ensures -1 <= r < |s|
    ensures r == -1 <==> c !in s
    ensures r >= 0 ==> s[r] == c && c !in s[..r]
  {
    if |s| == 0 then -1
    else if s[0] == c then 0
    else
      var k := IndexOf(s[1..], c);
      assert k >= 0 ==> s[..k + 1] == [s[0]] + s[1..][..k];
      if k == -1 then -1 else k + 1
  }

  /** The alphabet described by character codes instead of by its literal:
      a symbol is an ASCII letter of either case ... */
  predicate IsSymbol(c: char) {
    'A' <= c <= 'Z' || 'a' <= c <= 'z'
  }

  /** ... its position counts upper case from 0 and lower case from 26 ... */
  function Position(c: char): (p: int)
    ensures -1 <= p < AlphabetSize
    ensures p == -1 <==> !IsSymbol(c)
  {
    if 'A' <= c <= 'Z' then c as int - 'A' as int
    else if 'a' <= c <= 'z' then c as int - 'a' as int + 26
    else -1
  }

  /** ... and the symbol at position `i` is the inverse. */
  function Symbol(i: int): (c: char)
    requires 0 <= i < AlphabetSize
    ensures IsSymbol(c) && Position(c) == i
  {
    if i < 26 then ('A' as int + i) as char else ('a' as int + (i - 26)) as char
  }

  /** The literal agrees with the description symbol by symbol. */
  lemma AlphabetAt(i: int)
    requires 0 <= i < |Alphabet|
    ensures |Alphabet| == AlphabetSize
    ensures Alphabet[i] == Symbol(i)
  {
    if i < |Upper| {
      assert Alphabet[i] == Upper[i];
    } else {
      assert Alphabet[i] == Lower[i - |Upper|];
    }
  }

  /** Searching the literal for `c`, as the source does with `Contains` and
      `IndexOf`, finds exactly the symbols, at their positions. */
  lemma SearchAlphabet(c: char)
    ensures c in Alphabet <==> IsSymbol(c)
    ensures IndexOf(Alphabet, c) == Position(c)
  {
    var r := IndexOf(Alphabet, c);
    if r >= 0 {
      AlphabetAt(r);
    }
    if IsSymbol(c) {
      var p := Position(c);
      AlphabetAt(p);
      assert Alphabet[p] == c;
    }
  }
}
