/**
 * utils/generateCode.js: the six-character submission code, one alphabet
 * character per `Math.random()` draw. The draws are given as inputs.
 */
module CodeGenerator {
  import opened Base

  /** 32 characters: capitals and digits without the look-alikes I, O, 0 and 1. */
  const Alphabet: string := "ABCDEFGHJKLMNPQRSTUVWXYZ23456789"

  const CodeLength: nat := 6

  /** What `Math.random()` returns: a value in [0, 1). */
  predicate IsDraw(r: real) {
    0.0 <= r < 1.0
  }

  /** `Math.floor(r * chars.length)`. */
  function DrawIndex(r: real): (k: nat)
    requires IsDraw(r)
    ensures k < |Alphabet|
    ensures k as real <= r * 32.0 < k as real + 1.0
  {
    (r * 32.0).Floor
  }

  /** `generateCode()`, given its six draws. */
  function GenerateCode(draws: seq<real>): (code: string)
    requires |draws| == CodeLength && forall i :: 0 <= i < |draws| ==> IsDraw(draws[i])
    ensures |code| == CodeLength
    ensures forall i :: 0 <= i < |code| ==> code[i] in Alphabet
  {
    seq(CodeLength, i requires 0 <= i < CodeLength => Alphabet[DrawIndex(draws[i])])
  }

  /** The alphabet has 32 characters: capitals other than I and O, and the digits 2 to 9. */
  lemma AlphabetShape()
    ensures |Alphabet| == 32
    ensures forall i :: 0 <= i < |Alphabet| ==>
      (('A' <= Alphabet[i] <= 'Z') && Alphabet[i] != 'I' && Alphabet[i] != 'O') || ('2' <= Alphabet[i] <= '9')
  {
  }

  /** Every character of the alphabet is drawn by some value, so the index covers all of [0, 32). */
  lemma EveryIndexReachable(k: nat)
    requires k < |Alphabet|
    ensures IsDraw(k as real / 32.0) && DrawIndex(k as real / 32.0) == k
  {
  }

  /** The schema's `uppercase` setter leaves a generated code as it is. */
  lemma UppercaseKeepsCode(draws: seq<real>)
    requires |draws| == CodeLength && forall i :: 0 <= i < |draws| ==> IsDraw(draws[i])
    ensures Upper(GenerateCode(draws)) == GenerateCode(draws)
  {
    var code := GenerateCode(draws);
    AlphabetShape();
    forall i | 0 <= i < |code|
      ensures UpperChar(code[i]) == code[i]
    {
      assert code[i] in Alphabet;
    }
  }
}
