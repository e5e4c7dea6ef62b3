/** The shift transform: every alphabet symbol moves `key` places along the
    52-symbol alphabet, every other character is copied. The C# methods can
    throw when their computed index leaves [0, 51]; here that outcome is the
    `Err` alternative of a `Result`. */
module ShiftCipher {
  import opened CSharpInt
  import opened Letters

  /** The only failure of the transform: `alphabet[index]` with an index
      outside the string. */
  datatype CipherError = IndexOutOfRange(index: int)

  datatype Result<T> = Ok(value: T) | Err(error: CipherError)

  /** C#'s `alphabet[index]`: the symbol at `index`, or the exception for
      an index outside [0, 51]. */
  function SymbolAt(index: int): (r: Result<char>)
    ensures r.Ok? <==> 0 <= index < AlphabetSize
    ensures r.Ok? ==> r.value == Symbol(index)
    ensures r.Err? ==> r.error == IndexOutOfRange(index)
  {
    if 0 <= index < |Alphabet| then
      AlphabetAt(index);
      Ok(Alphabet[index])
    else
      Err(IndexOutOfRange(index))
  }

  /** The intended rotation, on mathematical residues: a symbol moves `k`
      places along the alphabet, wrapping around, in either direction; any
      other character stays. */
  function Shift(c: char, k: int): char {
    if IsSymbol(c) then Symbol((Position(c) + k) % 52) else c
  }

  /** Builds the output front to back, as the `foreach` loops with `+=` do:
      the first character whose conversion fails ends the operation with
      that failure. */
  function MapChars(text: string, f: char -> Result<char>): (r: Result<string>)
    ensures r.Ok? <==> forall i :: 0 <= i < |text| ==> f(text[i]).Ok?
    ensures r.Ok? ==> |r.value| == |text|
    ensures r.Ok? ==> forall i :: 0 <= i < |text| ==> r.value[i] == f(text[i]).value
    ensures r.Err? ==> exists i :: 0 <= i < |text| && f(text[i]) == Err(r.error)
                                   && forall j :: 0 <= j < i ==> f(text[j]).Ok?
  {
    if |text| == 0 then Ok("")
    else
      match f(text[0])
      case Err(e) => Err(e)
      case Ok(c) =>
        match MapChars(text[1..], f)
        case Err(e) =>
          assert forall j :: 1 <= j < |text| ==> text[j] == text[1..][j - 1];
          Err(e)
        case Ok(rest) =>
          assert forall j :: 1 <= j < |text| ==> text[j] == text[1..][j - 1];
          Ok([c] + rest)
  }

  /** Encoding `c` with `key` indexes outside the alphabet: the symbol's
      position plus the key is negative and, not being a multiple of 52,
      keeps a negative C# remainder. */
  predicate EncodeFailsAt(c: char, key: int) {
    IsSymbol(c) && Position(c) + key < 0 && (Position(c) + key) % 52 != 0
  }

  /** Decoding `c` with `key` indexes outside the alphabet. */
  predicate DecodeFailsAt(c: char, key: int) {
    IsSymbol(c) && Position(c) - key + 52 < 0 && (Position(c) - key) % 52 != 0
  }

  /** One character of `EncodeMessage`: index `(position + key) % 52`
      under C#'s remainder. */
  function EncodeLetter(c: char, key: int): (r: Result<char>)
    ensures !IsSymbol(c) ==> r == Ok(c)
    ensures r.Err? <==> EncodeFailsAt(c, key)
    ensures r.Ok? ==> r.value == Shift(c, key)
    ensures r.Err? ==> r.error == IndexOutOfRange(TruncRem(Position(c) + key, 52))
  {
    SearchAlphabet(c);
    if c in Alphabet then
      var x := IndexOf(Alphabet, c) + key;
      RemainderAsIndex(x);
      SymbolAt(TruncRem(x, 52))
    else Ok(c)
  }

  /** One character of `DecodeMessage`: index `(position - key + 52) % 52`
      under C#'s remainder. */
  function DecodeLetter(c: char, key: int): (r: Result<char>)
    ensures !IsSymbol(c) ==> r == Ok(c)
    ensures r.Err? <==> DecodeFailsAt(c, key)
    ensures r.Ok? ==> r.value == Shift(c, -key)
    ensures r.Err? ==> r.error == IndexOutOfRange(TruncRem(Position(c) - key + 52, 52))
  {
    SearchAlphabet(c);
    if c in Alphabet then
      var a := IndexOf(Alphabet, c) - key;
      RemainderAsIndex(a + 52);
      AddModulus(a);
      SymbolAt(TruncRem(a + 52, 52))
    else Ok(c)
  }

  /** One character of the corrected decode: the remainder is taken first,
      brought into range by adding 52, and taken again. */
  function DecodeLetterCorrected(c: char, key: int): (r: Result<char>)
    ensures r == Ok(Shift(c, -key))
  {
    SearchAlphabet(c);
    if c in Alphabet then
      var a := IndexOf(Alphabet, c) - key;
      var x := TruncRem(a, 52);
      assert 0 <= x + 52 && (x + 52) % 52 == a % 52 by {
        TruncDivision(a, 52);
        if x < 0 {
          EuclideanUnique(a, 52, TruncDiv(a, 52) - 1, x + 52);
        } else {
          EuclideanUnique(a, 52, TruncDiv(a, 52), x);
          EuclideanUnique(x + 52, 52, 1, x);
        }
      }
      SymbolAt(TruncRem(x + 52, 52))
    else Ok(c)
  }

  /** `EncodeMessage`: succeeds for every non-negative key, keeps the
      length, copies non-alphabet characters and rotates symbols forward.
      It fails exactly when some symbol's index leaves the alphabet, and
      then reports the first such index. */
  function EncodeMessage(message: string, key: int): (r: Result<string>)
    ensures r.Err? <==> exists i :: 0 <= i < |message| && EncodeFailsAt(message[i], key)
    ensures key >= 0 ==> r.Ok?
    ensures r.Ok? ==> |r.value| == |message|
    ensures r.Ok? ==> forall i :: 0 <= i < |message| ==> r.value[i] == Shift(message[i], key)
    ensures r.Err? ==> exists i :: 0 <= i < |message| && EncodeFailsAt(message[i], key)
                         && (forall j :: 0 <= j < i ==> !EncodeFailsAt(message[j], key))
                         && r.error == IndexOutOfRange(TruncRem(Position(message[i]) + key, 52))
  {
    MapChars(message, c => EncodeLetter(c, key))
  }

  /** `DecodeMessage` as written: succeeds for keys up to 52, and otherwise
      fails on the first symbol whose index goes negative without being a
      multiple of 52. */
  function DecodeMessage(encoded: string, key: int): (r: Result<string>)
    ensures r.Err? <==> exists i :: 0 <= i < |encoded| && DecodeFailsAt(encoded[i], key)
    ensures 0 <= key <= 52 ==> r.Ok?
    ensures r.Ok? ==> |r.value| == |encoded|
    ensures r.Ok? ==> forall i :: 0 <= i < |encoded| ==> r.value[i] == Shift(encoded[i], -key)
    ensures r.Err? ==> exists i :: 0 <= i < |encoded| && DecodeFailsAt(encoded[i], key)
                         && (forall j :: 0 <= j < i ==> !DecodeFailsAt(encoded[j], key))
                         && r.error == IndexOutOfRange(TruncRem(Position(encoded[i]) - key + 52, 52))
  {
    MapChars(encoded, c => DecodeLetter(c, key))
  }

  /** The intended decode, `((position - key) % 52 + 52) % 52`: it succeeds
      for every key. */
  function DecodeMessageCorrected(encoded: string, key: int): (r: Result<string>)
    ensures r.Ok?
    ensures |r.value| == |encoded|
    ensures forall i :: 0 <= i < |encoded| ==> r.value[i] == Shift(encoded[i], -key)
  {
    MapChars(encoded, c => DecodeLetterCorrected(c, key))
  }

  /** C#'s `x % 52` is a valid alphabet index exactly when `x` is
      non-negative or a multiple of 52, and is then the residue of `x`. */
  lemma RemainderAsIndex(x: int)
    ensures 0 <= TruncRem(x, 52) < 52 <==> x >= 0 || x % 52 == 0
    ensures 0 <= TruncRem(x, 52) < 52 ==> TruncRem(x, 52) == x % 52
  {
  }

  lemma AddModulus(a: int)
    ensures (a + 52) % 52 == a % 52
  {
    EuclideanUnique(a + 52, 52, a / 52 + 1, a % 52);
  }

  lemma ModAddAbsorb(x: int, b: int)
    ensures (x % 52 + b) % 52 == (x + b) % 52
  {
    var y := x + b;
    EuclideanUnique(x % 52 + b, 52, y / 52 - x / 52, y % 52);
  }

  /** Shift is the source's lookup: a character found in the literal moves
      to `alphabet[(IndexOf + k) % 52]` (the residue), any other stays. */
  lemma ShiftIsAlphabetLookup(c: char, k: int)
    ensures c in Alphabet ==> (IndexOf(Alphabet, c) + k) % 52 < |Alphabet|
                              && Shift(c, k) == Alphabet[(IndexOf(Alphabet, c) + k) % 52]
    ensures c !in Alphabet ==> Shift(c, k) == c
  {
    SearchAlphabet(c);
    if c in Alphabet {
      AlphabetAt((Position(c) + k) % 52);
    }
  }

  /** Shifting by `a` and then by `b` is shifting by `a + b`. */
  lemma ShiftCompose(c: char, a: int, b: int)
    ensures Shift(Shift(c, a), b) == Shift(c, a + b)
  {
    if IsSymbol(c) {
      ModAddAbsorb(Position(c) + a, b);
    }
  }

  lemma ShiftZero(c: char)
    ensures Shift(c, 0) == c
  {
  }

  /** Shifting back by `k` undoes shifting by `k`, in either order. */
  lemma ShiftInverse(c: char, k: int)
    ensures Shift(Shift(c, k), -k) == c
    ensures Shift(Shift(c, -k), k) == c
  {
    ShiftCompose(c, k, -k);
    ShiftCompose(c, -k, k);
    ShiftZero(c);
  }

  /** For keys in [0, 52], decoding undoes encoding. */
  lemma EncodeDecodeRoundTrip(message: string, key: int)
    requires 0 <= key <= 52
    ensures DecodeMessage(EncodeMessage(message, key).value, key) == Ok(message)
  {
    var e := EncodeMessage(message, key).value;
    var d := DecodeMessage(e, key).value;
    forall i | 0 <= i < |message|
      ensures d[i] == message[i]
    {
      assert d[i] == Shift(e[i], -key);
      assert e[i] == Shift(message[i], key);
      ShiftInverse(message[i], key);
    }
    assert d == message;
  }

  /** For keys in [0, 52], encoding undoes decoding. */
  lemma DecodeEncodeRoundTrip(encoded: string, key: int)
    requires 0 <= key <= 52
    ensures EncodeMessage(DecodeMessage(encoded, key).value, key) == Ok(encoded)
  {
    var d := DecodeMessage(encoded, key).value;
    var e := EncodeMessage(d, key).value;
    forall i | 0 <= i < |encoded|
      ensures e[i] == encoded[i]
    {
      assert e[i] == Shift(d[i], key);
      assert d[i] == Shift(encoded[i], -key);
      ShiftInverse(encoded[i], key);
    }
    assert e == encoded;
  }

  /** Whatever the key, a decode that does not fail returns the message that
      was encoded: the as-written decode can throw, but never answers wrongly. */
  lemma DecodeNeverWrong(message: string, key: int)
    requires EncodeMessage(message, key).Ok?
    ensures var d := DecodeMessage(EncodeMessage(message, key).value, key);
            d.Ok? ==> d.value == message
  {
    var e := EncodeMessage(message, key).value;
    var r := DecodeMessage(e, key);
    if r.Ok? {
      var d := r.value;
      forall i | 0 <= i < |message|
        ensures d[i] == message[i]
      {
        assert d[i] == Shift(e[i], -key);
        assert e[i] == Shift(message[i], key);
        ShiftInverse(message[i], key);
      }
      assert d == message;
    }
  }

  /** A non-negative key makes every message survive encode-then-decode
      exactly when it is at most 52. */
  lemma DecodeInvertsEncodeIff(key: nat)
    ensures (forall m :: DecodeMessage(EncodeMessage(m, key).value, key) == Ok(m)) <==> key <= 52
  {
    if key <= 52 {
      forall m: string
        ensures DecodeMessage(EncodeMessage(m, key).value, key) == Ok(m)
      {
        EncodeDecodeRoundTrip(m, key);
      }
    } else {
      var m := UndecodableMessage(key);
      assert DecodeMessage(EncodeMessage(m, key).value, key) != Ok(m);
    }
  }

  /** For a key above 52, a one-letter message whose encoding the as-written
      decode rejects. */
  lemma UndecodableMessage(key: int) returns (m: string)
    requires key > 52
    ensures DecodeMessage(EncodeMessage(m, key).value, key).Err?
  {
    var j := UndecodableIndex(key);
    var c := Symbol(j);
    m := [Shift(c, -key)];
    ShiftInverse(c, key);
    var e := EncodeMessage(m, key).value;
    assert e == [c] by {
      assert |e| == 1 && e[0] == Shift(m[0], key);
    }
    assert IsSymbol(e[0]) && Position(e[0]) == j;
  }

  /** For a key above 52, a position whose decode index is negative and not
      a multiple of 52. */
  lemma UndecodableIndex(key: int) returns (j: int)
    requires key > 52
    ensures 0 <= j < 52 && j - key + 52 < 0 && (j - key) % 52 != 0
  {
    if key % 52 != 0 {
      j := 0;
      if (j - key) % 52 == 0 {
        MultipleHasNoRemainder(key, 52, -((j - key) / 52));
      }
    } else {
      j := 1;
      EuclideanUnique(j - key, 52, -(key / 52), 1);
    }
  }

  /** The corrected decode undoes every encoding that succeeded. */
  lemma CorrectedRoundTrip(message: string, key: int)
    requires EncodeMessage(message, key).Ok?
    ensures DecodeMessageCorrected(EncodeMessage(message, key).value, key) == Ok(message)
  {
    var e := EncodeMessage(message, key).value;
    var d := DecodeMessageCorrected(e, key).value;
    forall i | 0 <= i < |message|
      ensures d[i] == message[i]
    {
      assert d[i] == Shift(e[i], -key);
      assert e[i] == Shift(message[i], key);
      ShiftInverse(message[i], key);
    }
    assert d == message;
  }

  /** For every non-negative key, encoding undoes the corrected decode. */
  lemma CorrectedInverseRoundTrip(encoded: string, key: int)
    requires key >= 0
    ensures EncodeMessage(DecodeMessageCorrected(encoded, key).value, key) == Ok(encoded)
  {
    var d := DecodeMessageCorrected(encoded, key).value;
    var e := EncodeMessage(d, key).value;
    forall i | 0 <= i < |encoded|
      ensures e[i] == encoded[i]
    {
      assert e[i] == Shift(d[i], key);
      assert d[i] == Shift(encoded[i], -key);
      ShiftInverse(encoded[i], key);
    }
    assert e == encoded;
  }

  /** Where the as-written decode succeeds, the corrected one agrees with it. */
  lemma CorrectedAgreesWhenDefined(encoded: string, key: int)
    requires DecodeMessage(encoded, key).Ok?
    ensures DecodeMessage(encoded, key) == DecodeMessageCorrected(encoded, key)
  {
    var a, b := DecodeMessage(encoded, key).value, DecodeMessageCorrected(encoded, key).value;
    assert |a| == |b| == |encoded|;
    assert forall i :: 0 <= i < |encoded| ==> a[i] == b[i];
    assert a == b;
  }

  /** Encoding with `a` and then `b` (both non-negative) is encoding with
      `a + b`. */
  lemma EncodeCompose(message: string, a: nat, b: nat)
    ensures EncodeMessage(EncodeMessage(message, a).value, b) == EncodeMessage(message, a + b)
  {
    var e1 := EncodeMessage(message, a).value;
    var e2 := EncodeMessage(e1, b).value;
    var e := EncodeMessage(message, a + b).value;
    forall i | 0 <= i < |message|
      ensures e2[i] == e[i]
    {
      assert e2[i] == Shift(e1[i], b);
      assert e1[i] == Shift(message[i], a);
      ShiftCompose(message[i], a, b);
    }
    assert e2 == e;
  }

  /** Non-negative keys 52 apart encode every message alike. */
  lemma EncodePeriodic(message: string, a: nat)
    ensures EncodeMessage(message, a + 52) == EncodeMessage(message, a)
  {
    var e1 := EncodeMessage(message, a + 52).value;
    var e := EncodeMessage(message, a).value;
    forall i | 0 <= i < |message|
      ensures e1[i] == e[i]
    {
      assert e1[i] == Shift(message[i], a + 52);
      assert e[i] == Shift(message[i], a);
      ShiftPeriodic(message[i], a);
    }
    assert e1 == e;
  }

  lemma ShiftPeriodic(c: char, a: int)
    ensures Shift(c, a + 52) == Shift(c, a)
  {
    if IsSymbol(c) {
      AddModulus(Position(c) + a);
    }
  }

  /** Key 0 leaves every message unchanged. */
  lemma EncodeWithZeroKey(message: string)
    ensures EncodeMessage(message, 0) == Ok(message)
  {
    var e := EncodeMessage(message, 0).value;
    forall i | 0 <= i < |message|
      ensures e[i] == message[i]
    {
      ShiftZero(message[i]);
    }
    assert e == message;
  }
}
