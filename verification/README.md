# EncoderDecoder cipher core in Dafny

This project models the cipher engine of `EncoderDecoder.cs`, a small letter-shift
cipher keyed by two participant names, and proves properties of the model.

- **Name scoring** (`GetNameSum`): every character of a name adds its 1-based
  position in the 52-symbol alphabet `A`–`Z` followed by `a`–`z`. A character
  outside the alphabet has `IndexOf` equal to -1, so it adds 0.
- **Key formulas.** The first formula is `(s + r) % 52`. The second is
  `s * r / (s + r)`, or 0 when the sum is 0. The second key is not reduced
  modulo 52.
- **Shift transform.** `EncodeMessage` moves each alphabet symbol to index
  `(pos + key) % 52`. `DecodeMessage` moves it to `(pos - key + 52) % 52`.
  Every other character is copied.
- **Public wrappers.** The four `Encode/DecodeUsing{First,Second}Formula`
  methods compose a key formula with the transform.

The model keeps the C# semantics wherever they matter:

- `%` and `/` truncate toward zero (`CSharpInt.TruncRem`, `CSharpInt.TruncDiv`).
- The `int` product at line 54 wraps around (`CSharpInt.Wrap32`).
- Indexing the alphabet string with an index outside [0, 51] throws
  `IndexOutOfRangeException`. In the model this is the result
  `Err(IndexOutOfRange(index))`, and a message operation reports the first
  character that fails, as the `foreach` loop would.

Decoding is meant to invert encoding for every key. That needs the index
`((pos - key) % 52 + 52) % 52`, but the code computes `(pos - key + 52) % 52`.
That index can be negative for keys above 52, which the second formula produces.
The model follows the code:
- `ShiftCipher.DecodeMessage` and `Coder.DecodeUsingSecondFormula` fail where
  the code throws.
- The intended decode is modelled separately, as
  `ShiftCipher.DecodeMessageCorrected` and the `...Corrected` wrappers.

Modules, in dependency order:

| module | file | contents |
|---|---|---|
| `CSharpInt` | `csharp_int.dfy` | 32-bit wrap-around, truncating `/` and `%` |
| `Letters` | `letters.dfy` | the alphabet, `string.IndexOf`, positions of symbols |
| `NameValue` | `name_value.dfy` | letter values and name sums |
| `Keys` | `keys.dfy` | the two key formulas |
| `ShiftCipher` | `shift_cipher.dfy` | per-character and per-message encode/decode, round-trip laws |
| `Coder` | `coder.dfy` | the four public wrappers, the corrected second-formula pair, worked examples |

## Model

| member | source | states |
|---|---|---|
| `CSharpInt.Wrap32` | EncoderDecoder.cs:54 | the product as C# stores it is a 32-bit value, equal to the exact product whenever that fits |
| `CSharpInt.Wrap32Congruent` | EncoderDecoder.cs:54 | the stored product differs from the exact one by a multiple of 2^32 |
| `CSharpInt.TruncRem` | EncoderDecoder.cs:79 | C#'s `%` agrees with the residue on a non-negative dividend; on a negative one it lies in (-52, 0] and is 0 exactly for multiples |
| `CSharpInt.TruncDiv` | EncoderDecoder.cs:56 | C#'s `/` agrees with floor division on non-negative operands; the negative dividend that a wrapped product gives at line 56 is covered by `CSharpInt.TruncDivision` |
| `CSharpInt.TruncDivision` | EncoderDecoder.cs:56 | `a == b * (a / b) + a % b` for C#'s pair, the remainder is smaller than the divisor and never has the opposite sign to the dividend |
| `Letters.AlphabetIsSourceLiteral` | EncoderDecoder.cs:61 | the alphabet is the literal `A`–`Z` followed by `a`–`z` |
| `Letters.IndexOf` | EncoderDecoder.cs:65 | `IndexOf` is -1 exactly when the character is absent, and otherwise its first occurrence |
| `Letters.SearchAlphabet` | EncoderDecoder.cs:76-78 | `alphabet.Contains(c)` holds exactly for ASCII letters, and `IndexOf` gives upper case 0–25 and lower case 26–51 |
| `Letters.AlphabetAt` | EncoderDecoder.cs:80 | `alphabet[i]` is the symbol at position `i` |
| `NameValue.LetterValue` | EncoderDecoder.cs:65 | a character adds `IndexOf + 1`, at most 52, and 0 exactly when it is not in the alphabet |
| `NameValue.NameSum` | EncoderDecoder.cs:59-68 | a name's sum is at most 52 per character, and 0 exactly when the name has no alphabet symbol (so the empty name gives 0) |
| `NameValue.CaseMatters` | EncoderDecoder.cs:61-65 | 'A' is worth 1, 'Z' 26, 'a' 27 and 'z' 52 |
| `NameValue.NameSumAppend` | EncoderDecoder.cs:63-66 | the sum of a concatenation is the sum of the sums |
| `NameValue.NameSumRepeat` | EncoderDecoder.cs:63-66 | `n` copies of a character score `n` times its value |
| `Keys.FirstKey` | EncoderDecoder.cs:43-48 | the first-formula key always lies in [0, 51] |
| `Keys.FirstKeyOf` | EncoderDecoder.cs:47 | C#'s `%` on the non-negative total is the residue of the total modulo 52 |
| `Keys.FirstKeySymmetric` | EncoderDecoder.cs:43-48 | swapping sender and receiver gives the same first key |
| `Keys.SecondKeyOf` | EncoderDecoder.cs:50-57 | a zero sum gives key 0, and when the product fits in an `int` the key is the exact floor quotient |
| `Keys.ExactSecondKeyOf` | EncoderDecoder.cs:54-56 | the exact key is never more than the smaller score |
| `Keys.ExactSecondKeyIsFloor` | EncoderDecoder.cs:56 | the exact key `k` satisfies `k * (s + r) <= s * r < (k + 1) * (s + r)` |
| `Keys.ExactSecondKeyZeroIff` | EncoderDecoder.cs:50-57 | the exact key is 0 exactly when one of the scores is at most 1 |
| `Keys.SecondKey` | EncoderDecoder.cs:50-57 | two names without symbols give key 0, and when the product fits the key lies between 0 and the smaller name sum |
| `Keys.SecondKeyExact` | EncoderDecoder.cs:50-57 | with the product computed exactly, the key is a natural number no larger than the smaller name sum |
| `Keys.SecondKeySymmetric` | EncoderDecoder.cs:50-57 | swapping sender and receiver gives the same second key, wrap-around included |
| `Keys.SecondKeyOfEqualNames` | EncoderDecoder.cs:50-57 | two equal names scoring `s` (with `s` at most 46340) give key `s / 2` |
| `Keys.SecondKeyExceedsAlphabet` | EncoderDecoder.cs:50-57 | names "zzzz" and "zzzz" give key 104, beyond 51 |
| `Keys.SecondKeyWrapsNegative` | EncoderDecoder.cs:54 | two names of 892 'z's score 46384 each; the wrapped product gives key -23105, where the exact product gives 23192 |
| `Keys.SecondKeyWrapsToZero` | EncoderDecoder.cs:54 | two names of 1260 'z's and a 'P' score 65536 each; the product 2^32 wraps to 0, giving key 0 where the exact product gives 32768 |
| `Keys.SecondKeyTruncatesToZero` | EncoderDecoder.cs:54-56 | names scoring 65537 and 65535 have product 2^32 - 1, which wraps to -1; truncating division by the sum gives key 0 where the exact product gives 32767 |
| `ShiftCipher.SymbolAt` | EncoderDecoder.cs:80 | `alphabet[index]` succeeds exactly for indices in [0, 51], and otherwise fails with that index |
| `ShiftCipher.MapChars` | EncoderDecoder.cs:74-87 | the loop succeeds exactly when every character converts; then the output has the same length and is converted pointwise; otherwise it reports the first failure |
| `ShiftCipher.EncodeLetter` | EncoderDecoder.cs:76-85 | a non-symbol is copied; a symbol fails exactly when `pos + key` is negative and not a multiple of 52, with the index C# computes, and otherwise moves `key` places |
| `ShiftCipher.DecodeLetter` | EncoderDecoder.cs:96-105 | a symbol fails exactly when `pos - key + 52` is negative and `pos - key` is not a multiple of 52, and otherwise moves back `key` places |
| `ShiftCipher.EncodeMessage` | EncoderDecoder.cs:70-88 | every non-negative key succeeds; output has the input's length, copies non-symbols, rotates symbols forward; failure exactly when some symbol's index leaves the alphabet, reporting the first such index |
| `ShiftCipher.DecodeMessage` | EncoderDecoder.cs:90-108 | keys in [0, 52] succeed; output has the input's length and rotates symbols back; failure exactly when some symbol's decode index leaves the alphabet, reporting the first |
| `ShiftCipher.DecodeLetterCorrected` | EncoderDecoder.cs:99 | with the remainder brought into range before indexing, every character decodes, to its shift back by `key` |
| `ShiftCipher.DecodeMessageCorrected` | EncoderDecoder.cs:90-108 | the corrected decode succeeds for every key and message, with pointwise backward rotation |
| `ShiftCipher.ShiftIsAlphabetLookup` | EncoderDecoder.cs:78-80 | the rotation is the source's lookup `alphabet[(IndexOf(c) + k) % 52]` on the residue, and copies characters outside the alphabet |
| `ShiftCipher.ShiftCompose` | EncoderDecoder.cs:79 | shifting by `a` and then `b` is shifting by `a + b` |
| `ShiftCipher.ShiftInverse` | EncoderDecoder.cs:99 | shifting back by `k` undoes shifting by `k`, in both orders |
| `ShiftCipher.EncodeDecodeRoundTrip` | EncoderDecoder.cs:70-108 | for keys in [0, 52], decoding an encoding returns the message |
| `ShiftCipher.DecodeEncodeRoundTrip` | EncoderDecoder.cs:70-108 | for keys in [0, 52], encoding a decoding returns the encoded text |
| `ShiftCipher.DecodeNeverWrong` | EncoderDecoder.cs:90-108 | for any key, a decode of an encoding that does not fail returns the original message |
| `ShiftCipher.DecodeInvertsEncodeIff` | EncoderDecoder.cs:99-100 | for a non-negative key, every message survives encode-then-decode exactly when the key is at most 52 |
| `ShiftCipher.UndecodableMessage` | EncoderDecoder.cs:99-100 | for every key above 52 there is a one-letter message whose encoding the decode rejects |
| `ShiftCipher.UndecodableIndex` | EncoderDecoder.cs:99 | for every key above 52 some alphabet position has a negative, non-multiple-of-52 decode index |
| `ShiftCipher.CorrectedRoundTrip` | EncoderDecoder.cs:90-108 | the corrected decode undoes every encoding that succeeds, for every key |
| `ShiftCipher.CorrectedInverseRoundTrip` | EncoderDecoder.cs:70-88 | for every non-negative key, encoding undoes the corrected decode |
| `ShiftCipher.CorrectedAgreesWhenDefined` | EncoderDecoder.cs:99-100 | where the as-written decode succeeds, the corrected decode gives the same text |
| `ShiftCipher.EncodeCompose` | EncoderDecoder.cs:79 | encoding with `a` then `b` is encoding with `a + b` |
| `ShiftCipher.EncodePeriodic` | EncoderDecoder.cs:79 | non-negative keys 52 apart encode every message alike |
| `ShiftCipher.EncodeWithZeroKey` | EncoderDecoder.cs:79 | key 0 leaves every message unchanged |
| `Coder.EncodeUsingFirstFormula` | EncoderDecoder.cs:19-23 | first-formula encoding never fails, keeps the length and rotates by the first key |
| `Coder.DecodeUsingFirstFormula` | EncoderDecoder.cs:25-29 | first-formula decoding never fails, keeps the length and rotates back by the first key |
| `Coder.EncodeUsingSecondFormula` | EncoderDecoder.cs:31-35 | second-formula encoding succeeds whenever the product of the name sums fits in an `int`, and fails exactly when some symbol's index leaves the alphabet |
| `Coder.DecodeUsingSecondFormula` | EncoderDecoder.cs:37-41 | second-formula decoding succeeds when the product fits and the key is at most 52, and fails exactly when some symbol's decode index leaves the alphabet |
| `Coder.EncodeUsingSecondFormulaCorrected` | EncoderDecoder.cs:31-35 | with the exact product, second-formula encoding never fails |
| `Coder.DecodeUsingSecondFormulaCorrected` | EncoderDecoder.cs:37-41 | with the exact product and the corrected index, second-formula decoding never fails |
| `Coder.FirstFormulaRoundTrip` | EncoderDecoder.cs:19-29 | for all names, first-formula decoding undoes first-formula encoding |
| `Coder.FirstFormulaInverseRoundTrip` | EncoderDecoder.cs:19-29 | for all names, first-formula encoding undoes first-formula decoding |
| `Coder.FirstFormulaSymmetric` | EncoderDecoder.cs:19-29 | swapping sender and receiver changes neither first-formula operation |
| `Coder.SecondFormulaSymmetric` | EncoderDecoder.cs:31-41 | swapping sender and receiver changes neither second-formula operation |
| `Coder.SecondFormulaRoundTrip` | EncoderDecoder.cs:31-41 | when the product fits and the key is at most 52, second-formula decoding undoes encoding |
| `Coder.SecondFormulaNeverWrong` | EncoderDecoder.cs:31-41 | for all names, decoding a successful second-formula encoding either fails or returns the message, never a different text |
| `Coder.CorrectedSecondFormulaRoundTrip` | EncoderDecoder.cs:31-41 | the corrected second formula round-trips for every pair of names |
| `Coder.CorrectedSecondFormulaAgrees` | EncoderDecoder.cs:31-41 | when the product fits, corrected encoding equals the as-written one and corrected decoding agrees wherever the as-written one succeeds |
| `Coder.SecondFormulaDecodeFails` | EncoderDecoder.cs:99-100 | with names "zzzz"/"zzzz", "Hi" encodes to "Hi", the as-written decode fails with index -45, and the corrected decode returns "Hi" |
| `Coder.SecondFormulaOverflowFails` | EncoderDecoder.cs:54 | with two names of 892 'z's, encoding "A" fails with index -17 while "R" still encodes (to "A"), and the exact product's key encodes "A" to "A" |
| `Coder.SecondFormulaOverflowIgnored` | EncoderDecoder.cs:54 | with two names scoring 65536, the wrapped key is 0, so encoding returns every message unchanged, while the exact key moves "A" to "I" |
| `Coder.WorkedExample` | EncoderDecoder.cs:19-29 | "Al" scores 39, "Bo" 43, the first key is 30, and "Hi!" and "lM!" encode and decode to each other |

## Left out

- `SaveToFile` and `LoadFromFile` (EncoderDecoder.cs:110-127) are file and console I/O with no computation; they are not modelled.
- `Program.Main` (EncoderDecoder.cs:130-188) is interactive prompting and role dispatch; it is not modelled.
- Null strings: `Console.ReadLine` can return null, and `foreach` over null throws. Inputs here are always strings.
- Only the product at line 54 wraps. The name sums at lines 65 and 55 and the additions at lines 47, 79 and 99 are unbounded. The name sums would wrap only for names beyond about 2^31 / 52 characters, or 41 million. The additions at lines 79 and 99 would wrap only for keys near ±2^31, which the formulas never produce: the first key is below 52, and the second has magnitude at most 2^30.
- `Keys.FirstKey`: its contract states only the range [0, 51]. The residue form of the key is stated on `Keys.FirstKeyOf`, the function it applies to the total.
- Characters: a Dafny `char` is a Unicode scalar value, while C#'s `foreach` over a string visits UTF-16 code units. A supplementary character is one element here and two in C#, and lone surrogates cannot be written at all. Both sides copy such characters unchanged, so only what the length of a message counts differs.
- The ICoder interface declaration (EncoderDecoder.cs:6-15) carries no behaviour beyond the methods above.

## Findings

| source | as written | input that shows it | evidently intended | confidence | as-written member | corrected member |
|---|---|---|---|---|---|---|
| EncoderDecoder.cs:99-100 | `(encodedPos - key + 52) % 52` is negative when `key > 52 + encodedPos` and `encodedPos - key` is not a multiple of 52, so `alphabet[originalPos]` throws; the second formula yields such keys | names "zzzz" and "zzzz" (key 104), encoded text "Hi": 7 - 104 + 52 = -45 | decode inverts encode for every key, with the index `((pos - key) % 52 + 52) % 52` | high; not executed | `Coder.SecondFormulaDecodeFails` | `Coder.CorrectedSecondFormulaRoundTrip` |
| EncoderDecoder.cs:54 | `senderValue * receiverValue` is computed in unchecked `int`. A product in (2^31 - 1, 2^32) wraps negative, so the key is negative, or 0 when the wrapped product is above -(s + r). With a negative key `EncodeMessage` throws on any symbol whose `pos + key` is negative and not a multiple of 52. A key truncated to 0, or a product of 2^32 or more wrapping back to a non-negative value, gives a silently wrong key | two names of 892 'z's (46384 each): the product 2151475456 wraps to -2143491840, the key is -23105, and "A" gives index -17 ("R" still encodes, to "A"); two names of 1260 'z's and a 'P' (65536 each): the product 2^32 wraps to 0, and encoding becomes the identity where the exact key is 32768; names of 1260 'z's followed by 'Q' and by 'O' (65537 and 65535): the product 2^32 - 1 wraps to -1, and -1 / 131072 truncates to key 0 where the exact key is 32767 | the key is the exact `s * r / (s + r)`, which is never negative | high; not executed | `Coder.SecondFormulaOverflowFails`, `Coder.SecondFormulaOverflowIgnored` | `Coder.EncodeUsingSecondFormulaCorrected` |
