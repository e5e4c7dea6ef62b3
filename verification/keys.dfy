/** The two ways of deriving a shift key from the sender's and the
    receiver's names. */
module Keys {
  import opened CSharpInt
  import opened Letters
  import opened NameValue

  function Min(a: int, b: int): int {
    if a <= b then a else b
  }

  /** First formula: the sum of the two name scores, reduced with C#'s `%`. */
  function FirstKey(sender: string, receiver: string): (k: int)
    ensures 0 <= k < AlphabetSize
  {
    FirstKeyOf(NameSum(sender) + NameSum(receiver))
  }

  /** First formula on the total score: C#'s `%` on a non-negative total is
      the residue modulo 52, so the key is always a valid alphabet index. */
  function FirstKeyOf(total: nat): (k: int)
    ensures 0 <= k < 52 && k == total % 52
  {
    TruncRem(total, 52)
  }

  /** Second formula on two scores, as C# computes it: the product in a
      32-bit `int` (so it wraps once it passes 2^31 - 1) divided, rounding
      toward zero, by the sum; a zero sum gives key 0. */
  function SecondKeyOf(s: nat, r: nat): (k: int)
    ensures s + r == 0 ==> k == 0
    ensures InInt32(s * r) ==> k == ExactSecondKeyOf(s, r)
  {
    var product := Wrap32(s * r);
    var sum := s + r;
    if sum == 0 then 0 else TruncDiv(product, sum)
  }

  /** Second formula on two scores with an exact product: the floor of
      product over sum, 0 on a zero sum. */
  function ExactSecondKeyOf(s: nat, r: nat): (k: nat)
    ensures k <= Min(s, r)
  {
    if s + r == 0 then 0
    else
      ProductBelowMinTimesSum(s, r);
      QuotientBelow(s * r, s + r, Min(s, r));
      s * r / (s + r)
  }

  /** The second-formula key of two names, as the source computes it. The
      key is not reduced modulo 52. */
  function SecondKey(sender: string, receiver: string): (k: int)
    ensures NameSum(sender) + NameSum(receiver) == 0 ==> k == 0
    ensures InInt32(NameSum(sender) * NameSum(receiver)) ==>
              0 <= k <= Min(NameSum(sender), NameSum(receiver))
  {
    SecondKeyOf(NameSum(sender), NameSum(receiver))
  }

  /** The second-formula key of two names with the product computed exactly. */
  function SecondKeyExact(sender: string, receiver: string): (k: nat)
    ensures NameSum(sender) + NameSum(receiver) == 0 ==> k == 0
    ensures k <= Min(NameSum(sender), NameSum(receiver))
  {
    ExactSecondKeyOf(NameSum(sender), NameSum(receiver))
  }

  /** The exact key is the quotient of product by sum, rounded down. */
  lemma ExactSecondKeyIsFloor(s: nat, r: nat)
    requires s + r > 0
    ensures var k := ExactSecondKeyOf(s, r);
            k * (s + r) <= s * r < (k + 1) * (s + r)
  {
    FloorQuotient(s * r, s + r);
  }

  /** The exact key is 0 exactly when one of the scores is at most 1:
      otherwise the product of the scores reaches their sum. */
  lemma ExactSecondKeyZeroIff(s: nat, r: nat)
    ensures ExactSecondKeyOf(s, r) == 0 <==> s <= 1 || r <= 1
  {
    if s + r > 0 {
      ExactSecondKeyIsFloor(s, r);
      var k := ExactSecondKeyOf(s, r);
      if s >= 2 && r >= 2 {
        MulMonotone(2, s, r);
        MulMonotone(2, r, s);
        assert s * r >= s + r;
        MulMonotone(1, k, s + r);
      } else if s <= 1 {
        MulMonotone(s, 1, r);
        assert s * r < s + r;
      } else {
        MulMonotone(r, 1, s);
        assert s * r < s + r;
      }
    }
  }

  lemma ProductBelowMinTimesSum(s: nat, r: nat)
    ensures s * r <= Min(s, r) * (s + r)
  {
    if s <= r {
      assert s * (s + r) == s * s + s * r;
    } else {
      assert r * (s + r) == r * s + r * r;
    }
  }

  lemma FloorQuotient(a: nat, b: int)
    requires b > 0
    ensures a / b * b <= a < (a / b + 1) * b
  {
    var q := a / b;
    assert a == q * b + a % b;
  }

  lemma QuotientBelow(a: nat, b: int, m: nat)
    requires b > 0 && a <= m * b
    ensures a / b <= m
  {
    FloorQuotient(a, b);
    if a / b > m {
      MulMonotone(m + 1, a / b, b);
    }
  }

  lemma MulMonotone(x: int, y: int, b: nat)
    requires x <= y
    ensures x * b <= y * b
  {
  }

  /** Swapping sender and receiver gives the same first-formula key. */
  lemma FirstKeySymmetric(sender: string, receiver: string)
    ensures FirstKey(sender, receiver) == FirstKey(receiver, sender)
  {
  }

  /** Swapping sender and receiver gives the same second-formula key,
      wrap-around included. */
  lemma SecondKeySymmetric(sender: string, receiver: string)
    ensures SecondKey(sender, receiver) == SecondKey(receiver, sender)
  {
    SecondKeyOfSymmetric(NameSum(sender), NameSum(receiver));
  }

  lemma SecondKeyOfSymmetric(s: nat, r: nat)
    ensures SecondKeyOf(s, r) == SecondKeyOf(r, s)
  {
    assert s * r == r * s;
  }

  /** Two copies of a name scoring `s` give key `s / 2`, so the second key
      reaches far beyond 51. */
  lemma SecondKeyOfEqualNames(name: string)
    requires NameSum(name) <= 46340
    ensures SecondKey(name, name) == NameSum(name) / 2
  {
    SecondKeyOfEqualScores(NameSum(name));
  }

  lemma SecondKeyOfEqualScores(s: nat)
    requires s <= 46340
    ensures SecondKeyOf(s, s) == s / 2
  {
    if s > 0 {
      assert s * s <= 46340 * 46340 by {
        MulMonotone(s, 46340, s);
        MulMonotone(s, 46340, 46340);
      }
      ExactSecondKeyIsFloor(s, s);
      HalfFromProduct(s, ExactSecondKeyOf(s, s));
    }
  }

  lemma HalfFromProduct(s: nat, k: nat)
    requires s > 0 && k * (s + s) <= s * s < (k + 1) * (s + s)
    ensures k == s / 2
  {
    assert (2 * k) * s <= s * s < (2 * k + 2) * s;
    if 2 * k > s {
      MulMonotone(s + 1, 2 * k, s);
    }
    if 2 * k + 2 <= s {
      MulMonotone(2 * k + 2, s, s);
    }
  }

  /** "zzzz" scores 208, so two such names give key 104, beyond 51. */
  lemma SecondKeyExceedsAlphabet()
    ensures NameSum("zzzz") == 208
    ensures SecondKey("zzzz", "zzzz") == 104
  {
    assert "zzzz" == Repeat('z', 4);
    NameSumRepeat('z', 4);
    CaseMatters();
    SecondKeyOfEqualNames("zzzz");
  }

  /** Two names of 892 'z's score 46384 each; their product passes
      2^31 - 1 and wraps negative, so the key comes out as -23105 where the
      exact formula gives 23192. */
  lemma SecondKeyWrapsNegative()
    ensures NameSum(Repeat('z', 892)) == 46384
    ensures SecondKey(Repeat('z', 892), Repeat('z', 892)) == -23105
    ensures SecondKeyExact(Repeat('z', 892), Repeat('z', 892)) == 23192
  {
    NameSumRepeat('z', 892);
    CaseMatters();
    WrappedKeyExample();
  }

  lemma WrappedKeyExample()
    ensures SecondKeyOf(46384, 46384) == -23105
    ensures ExactSecondKeyOf(46384, 46384) == 23192
  {
    assert Wrap32(46384 * 46384) == -2143491840;
  }

  /** Two names of 1260 'z's followed by 'P' score 65536 each; their product
      is exactly 2^32, which wraps to 0, so the key silently becomes 0 where
      the exact product gives 32768. */
  lemma SecondKeyWrapsToZero()
    ensures NameSum(Repeat('z', 1260) + "P") == 65536
    ensures SecondKey(Repeat('z', 1260) + "P", Repeat('z', 1260) + "P") == 0
    ensures SecondKeyExact(Repeat('z', 1260) + "P", Repeat('z', 1260) + "P") == 32768
  {
    NameSumRepeat('z', 1260);
    NameSumAppend(Repeat('z', 1260), "P");
    CaseMatters();
    assert NameSum("P") == LetterValue('P') == 16;
    VanishedKeyExample();
  }

  /** A product just below 2^32 wraps to a small negative value, which
      truncating division by the sum brings to 0: names of 1260 'z's followed
      by 'Q' and by 'O' score 65537 and 65535, their product 2^32 - 1 wraps
      to -1, and the key is 0 where the exact product gives 32767. */
  lemma SecondKeyTruncatesToZero()
    ensures NameSum(Repeat('z', 1260) + "Q") == 65537
    ensures NameSum(Repeat('z', 1260) + "O") == 65535
    ensures SecondKey(Repeat('z', 1260) + "Q", Repeat('z', 1260) + "O") == 0
    ensures SecondKeyExact(Repeat('z', 1260) + "Q", Repeat('z', 1260) + "O") == 32767
  {
    NameSumRepeat('z', 1260);
    NameSumAppend(Repeat('z', 1260), "Q");
    NameSumAppend(Repeat('z', 1260), "O");
    CaseMatters();
    assert NameSum("Q") == LetterValue('Q') == 17;
    assert NameSum("O") == LetterValue('O') == 15;
    TruncatedKeyExample();
  }

  lemma TruncatedKeyExample()
    ensures SecondKeyOf(65537, 65535) == 0
    ensures ExactSecondKeyOf(65537, 65535) == 32767
  {
    assert Wrap32(65537 * 65535) == -1;
  }

  lemma VanishedKeyExample()
    ensures SecondKeyOf(65536, 65536) == 0
    ensures ExactSecondKeyOf(65536, 65536) == 32768
  {
    assert Wrap32(65536 * 65536) == 0;
  }
}
