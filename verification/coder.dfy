/** The public operations: each derives a key from the two names with one of
    the formulas and runs the shift transform with it. */
module Coder {
  import opened CSharpInt
  import opened Letters
  import opened NameValue
  import opened Keys
  import opened ShiftCipher

  /** `EncodeUsingFirstFormula`: the first-formula key lies in [0, 51], so
      encoding never fails. */
  function EncodeUsingFirstFormula(message: string, sender: string, receiver: string): (r: Result<string>)
    ensures r.Ok? && |r.value| == |message|
    ensures forall i :: 0 <= i < |message| ==> r.value[i] == Shift(message[i], FirstKey(sender, receiver))
  {
    EncodeMessage(message, FirstKey(sender, receiver))
  }

  /** `DecodeUsingFirstFormula`: with a key in [0, 51] the decode index is
      always valid, so decoding never fails. */
  function DecodeUsingFirstFormula(encoded: string, sender: string, receiver: string): (r: Result<string>)
    ensures r.Ok? && |r.value| == |encoded|
    ensures forall i :: 0 <= i < |encoded| ==> r.value[i] == Shift(encoded[i], -FirstKey(sender, receiver))
  {
    DecodeMessage(encoded, FirstKey(sender, receiver))
  }

  /** `EncodeUsingSecondFormula`: succeeds whenever the product of the name
      scores fits in an `int`, since the key is then non-negative; otherwise
      it fails exactly on a symbol whose index leaves the alphabet. */
  function EncodeUsingSecondFormula(message: string, sender: string, receiver: string): (r: Result<string>)
    ensures InInt32(NameSum(sender) * NameSum(receiver)) ==> r.Ok?
    ensures r.Err? <==> exists i :: 0 <= i < |message| && EncodeFailsAt(message[i], SecondKey(sender, receiver))
    ensures r.Ok? ==> |r.value| == |message|
    ensures r.Ok? ==> forall i :: 0 <= i < |message| ==>
                        r.value[i] == Shift(message[i], SecondKey(sender, receiver))
  {
    EncodeMessage(message, SecondKey(sender, receiver))
  }

  /** `DecodeUsingSecondFormula` as written: succeeds when the product fits
      and the key is at most 52; beyond that it fails on any symbol whose
      decode index is negative. */
  function DecodeUsingSecondFormula(encoded: string, sender: string, receiver: string): (r: Result<string>)
    ensures InInt32(NameSum(sender) * NameSum(receiver)) && SecondKey(sender, receiver) <= 52 ==> r.Ok?
    ensures r.Err? <==> exists i :: 0 <= i < |encoded| && DecodeFailsAt(encoded[i], SecondKey(sender, receiver))
    ensures r.Ok? ==> |r.value| == |encoded|
    ensures r.Ok? ==> forall i :: 0 <= i < |encoded| ==>
                        r.value[i] == Shift(encoded[i], -SecondKey(sender, receiver))
  {
    DecodeMessage(encoded, SecondKey(sender, receiver))
  }

  /** Second-formula encoding with the exact product: it never fails. */
  function EncodeUsingSecondFormulaCorrected(message: string, sender: string, receiver: string): (r: Result<string>)
    ensures r.Ok? && |r.value| == |message|
    ensures forall i :: 0 <= i < |message| ==>
              r.value[i] == Shift(message[i], SecondKeyExact(sender, receiver))
  {
    EncodeMessage(message, SecondKeyExact(sender, receiver))
  }

  /** Second-formula decoding with the exact product and an index brought
      into range after the remainder: it never fails. */
  function DecodeUsingSecondFormulaCorrected(encoded: string, sender: string, receiver: string): (r: Result<string>)
    ensures r.Ok? && |r.value| == |encoded|
    ensures forall i :: 0 <= i < |encoded| ==>
              r.value[i] == Shift(encoded[i], -(SecondKeyExact(sender, receiver) as int))
  {
    DecodeMessageCorrected(encoded, SecondKeyExact(sender, receiver))
  }

  /** With the same two names, first-formula decoding undoes encoding. */
  lemma FirstFormulaRoundTrip(message: string, sender: string, receiver: string)
    ensures DecodeUsingFirstFormula(EncodeUsingFirstFormula(message, sender, receiver).value, sender, receiver)
            == Ok(message)
  {
    EncodeDecodeRoundTrip(message, FirstKey(sender, receiver));
  }

  /** With the same two names, first-formula encoding undoes decoding. */
  lemma FirstFormulaInverseRoundTrip(encoded: string, sender: string, receiver: string)
    ensures EncodeUsingFirstFormula(DecodeUsingFirstFormula(encoded, sender, receiver).value, sender, receiver)
            == Ok(encoded)
  {
    DecodeEncodeRoundTrip(encoded, FirstKey(sender, receiver));
  }

  /** A message encoded by the sender for the receiver is decoded by the
      receiver naming the pair either way round. */
  lemma FirstFormulaSymmetric(message: string, sender: string, receiver: string)
    ensures EncodeUsingFirstFormula(message, sender, receiver) == EncodeUsingFirstFormula(message, receiver, sender)
    ensures DecodeUsingFirstFormula(message, sender, receiver) == DecodeUsingFirstFormula(message, receiver, sender)
  {
    FirstKeySymmetric(sender, receiver);
  }

  /** The same holds for the second formula, wrap-around included. */
  lemma SecondFormulaSymmetric(message: string, sender: string, receiver: string)
    ensures EncodeUsingSecondFormula(message, sender, receiver) == EncodeUsingSecondFormula(message, receiver, sender)
    ensures DecodeUsingSecondFormula(message, sender, receiver) == DecodeUsingSecondFormula(message, receiver, sender)
  {
    SecondKeySymmetric(sender, receiver);
  }

  /** When the product fits and the key is at most 52, second-formula
      decoding undoes encoding. */
  lemma SecondFormulaRoundTrip(message: string, sender: string, receiver: string)
    requires InInt32(NameSum(sender) * NameSum(receiver))
    requires SecondKey(sender, receiver) <= 52
    ensures DecodeUsingSecondFormula(EncodeUsingSecondFormula(message, sender, receiver).value, sender, receiver)
            == Ok(message)
  {
    EncodeDecodeRoundTrip(message, SecondKey(sender, receiver));
  }

  /** Whatever the names, a second-formula encoding that succeeds is either
      rejected by the decode or decoded back to the message. */
  lemma SecondFormulaNeverWrong(message: string, sender: string, receiver: string)
    ensures var e := EncodeUsingSecondFormula(message, sender, receiver);
            e.Ok? ==> var d := DecodeUsingSecondFormula(e.value, sender, receiver);
                      d.Ok? ==> d.value == message
  {
    if EncodeUsingSecondFormula(message, sender, receiver).Ok? {
      DecodeNeverWrong(message, SecondKey(sender, receiver));
    }
  }

  /** The corrected second formula round-trips for every pair of names. */
  lemma CorrectedSecondFormulaRoundTrip(message: string, sender: string, receiver: string)
    ensures DecodeUsingSecondFormulaCorrected(
              EncodeUsingSecondFormulaCorrected(message, sender, receiver).value, sender, receiver)
            == Ok(message)
  {
    CorrectedRoundTrip(message, SecondKeyExact(sender, receiver));
  }

  /** When the product fits, the corrected encoding is the as-written one,
      and the corrected decoding agrees with every as-written decoding that
      succeeds. */
  lemma CorrectedSecondFormulaAgrees(message: string, sender: string, receiver: string)
    requires InInt32(NameSum(sender) * NameSum(receiver))
    ensures EncodeUsingSecondFormula(message, sender, receiver)
            == EncodeUsingSecondFormulaCorrected(message, sender, receiver)
    ensures DecodeUsingSecondFormula(message, sender, receiver).Ok? ==>
              DecodeUsingSecondFormula(message, sender, receiver)
              == DecodeUsingSecondFormulaCorrected(message, sender, receiver)
  {
    var key := SecondKey(sender, receiver);
    assert key == SecondKeyExact(sender, receiver);
    if DecodeMessage(message, key).Ok? {
      CorrectedAgreesWhenDefined(message, key);
    }
  }

  /** Names "zzzz" and "zzzz" give key 104. "Hi" encodes to itself, and the
      as-written decode of it fails at 'H' with index 7 - 104 + 52 = -45,
      while the corrected decode returns "Hi". */
  lemma SecondFormulaDecodeFails()
    ensures EncodeUsingSecondFormula("Hi", "zzzz", "zzzz") == Ok("Hi")
    ensures DecodeUsingSecondFormula("Hi", "zzzz", "zzzz") == Err(IndexOutOfRange(-45))
    ensures DecodeUsingSecondFormulaCorrected("Hi", "zzzz", "zzzz") == Ok("Hi")
  {
    SecondKeyExceedsAlphabet();
    assert SecondKeyExact("zzzz", "zzzz") == 104;
    var m := "Hi";
    assert m[0] == Symbol(7) && m[1] == Symbol(34);
    var e := EncodeUsingSecondFormula(m, "zzzz", "zzzz").value;
    assert e[0] == Symbol(111 % 52) && e[1] == Symbol(138 % 52);
    assert e == m;
    assert DecodeFailsAt(m[0], 104);
    var d := DecodeUsingSecondFormula(m, "zzzz", "zzzz");
    assert d.error == IndexOutOfRange(TruncRem(-45, 52));
    var c := DecodeUsingSecondFormulaCorrected(m, "zzzz", "zzzz").value;
    assert c[0] == Symbol((7 - 104) % 52) && c[1] == Symbol((34 - 104) % 52);
    assert c == m;
  }

  /** Names of 892 'z's each score 46384; their product wraps, the key
      comes out as -23105, and encoding "A" fails with index -17. With the
      exact product the key is 23192 = 446 * 52, under which "A" encodes to
      itself. */
  lemma SecondFormulaOverflowFails()
    ensures EncodeUsingSecondFormula("A", Repeat('z', 892), Repeat('z', 892)) == Err(IndexOutOfRange(-17))
    ensures EncodeUsingSecondFormula("R", Repeat('z', 892), Repeat('z', 892)) == Ok("A")
    ensures EncodeUsingSecondFormulaCorrected("A", Repeat('z', 892), Repeat('z', 892)) == Ok("A")
  {
    SecondKeyWrapsNegative();
    EncodeWithWrappedKey();
    EncodeWithExactKey();
  }

  lemma EncodeWithWrappedKey()
    ensures EncodeMessage("A", -23105) == Err(IndexOutOfRange(-17))
    ensures EncodeMessage("R", -23105) == Ok("A")
  {
    assert EncodeFailsAt("A"[0], -23105);
    assert TruncRem(-23105, 52) == -17;
    assert !EncodeFailsAt("R"[0], -23105);
    var e := EncodeMessage("R", -23105).value;
    assert e[0] == Symbol((17 - 23105) % 52);
    assert e == "A";
  }

  /** Names of 1260 'z's followed by 'P' score 65536 each; their product is
      2^32, which wraps to 0, so second-formula encoding silently leaves
      every message unchanged, while the exact key 32768 moves "A" to "I". */
  lemma SecondFormulaOverflowIgnored(message: string)
    ensures EncodeUsingSecondFormula(message, Repeat('z', 1260) + "P", Repeat('z', 1260) + "P") == Ok(message)
    ensures EncodeUsingSecondFormulaCorrected("A", Repeat('z', 1260) + "P", Repeat('z', 1260) + "P") == Ok("I")
  {
    SecondKeyWrapsToZero();
    EncodeWithZeroKey(message);
    var e := EncodeMessage("A", 32768).value;
    assert e[0] == Symbol(32768 % 52);
    assert e == "I";
  }

  lemma EncodeWithExactKey()
    ensures EncodeMessage("A", 23192) == Ok("A")
  {
    var e := EncodeMessage("A", 23192).value;
    assert e[0] == Symbol(23192 % 52);
    assert e == "A";
  }

  /** Sender "Al" (1 + 38) and receiver "Bo" (2 + 41) give first-formula
      key 82 % 52 = 30, under which "Hi!" and "lM!" correspond. */
  lemma WorkedExample()
    ensures NameSum("Al") == 39 && NameSum("Bo") == 43
    ensures FirstKey("Al", "Bo") == 30
    ensures EncodeUsingFirstFormula("Hi!", "Al", "Bo") == Ok("lM!")
    ensures DecodeUsingFirstFormula("lM!", "Al", "Bo") == Ok("Hi!")
  {
    ExampleScores();
    ExampleEncode();
    ExampleDecode();
  }

  lemma ExampleScores()
    ensures NameSum("Al") == 39 && NameSum("Bo") == 43
    ensures FirstKey("Al", "Bo") == 30
  {
    assert NameSum("Al") == 39 && NameSum("Bo") == 43 by {
      TwoLetterName('A', 'l');
      TwoLetterName('B', 'o');
      CaseMatters();
      assert LetterValue('l') == 38 && LetterValue('o') == 41;
    }
    assert FirstKey("Al", "Bo") == FirstKeyOf(82);
  }

  lemma TwoLetterName(a: char, b: char)
    ensures NameSum([a, b]) == LetterValue(a) + LetterValue(b)
  {
    assert [a, b][1..] == [b];
  }

  lemma ExampleEncode()
    ensures EncodeMessage("Hi!", 30) == Ok("lM!")
  {
    var e := EncodeMessage("Hi!", 30).value;
    assert e[0] == Symbol(37) && e[1] == Symbol(64 % 52) && e[2] == '!';
    assert e == "lM!";
  }

  lemma ExampleDecode()
    ensures DecodeMessage("lM!", 30) == Ok("Hi!")
  {
    var d := DecodeMessage("lM!", 30).value;
    assert d[0] == Symbol((37 - 30) % 52) && d[1] == Symbol((12 - 30) % 52) && d[2] == '!';
    assert d == "Hi!";
  }
}
