/** Short-code generation (src/utils/code.ts). `Math.random()` is foreign: the
    model receives the index each call of `Math.floor(Math.random() * 62)`
    produced, in order. */
module CodeGen {
  import opened Validate

  /** The 62-letter alphabet: 'A'..'Z', then 'a'..'z', then '0'..'9'. */
  const ALPHABET: string := UPPER + LOWER + DIGITS

  /** The default `length` of `generateCode`. */
  const DEFAULT_LENGTH: nat := 6

  /** Every draw is an index into ALPHABET, as `Math.floor(Math.random() * 62)` always is. */
  predicate ValidDraws(draws: seq<nat>) {
    forall i | 0 <= i < |draws| :: draws[i] < |ALPHABET|
  }

  /** The letter ALPHABET holds at position `i`: upper case, lower case, then digits. */
  function AlphabetAt(i: nat): (c: char)
    requires i < 62
    ensures IsAsciiAlnum(c)
  {
    if i < 26 then ('A' as int + i) as char
    else if i < 52 then ('a' as int + (i - 26)) as char
    else ('0' as int + (i - 52)) as char
  }

  /** The three runs ALPHABET is made of. */
  const UPPER: string := "ABCDEFGHIJKLMNOPQRSTUVWXYZ"
  const LOWER: string := "abcdefghijklmnopqrstuvwxyz"
  const DIGITS: string := "0123456789"

  lemma UpperRun()
    ensures forall i | 0 <= i < 26 :: UPPER[i] == ('A' as int + i) as char
  {
  }

  lemma LowerRun()
    ensures forall i | 0 <= i < 26 :: LOWER[i] == ('a' as int + i) as char
  {
  }

  lemma DigitRun()
    ensures forall i | 0 <= i < 10 :: DIGITS[i] == ('0' as int + i) as char
  {
  }

  /** ALPHABET is exactly the 26 upper-case letters, the 26 lower-case letters
      and the 10 digits, in that order. */
  lemma AlphabetLayout()
    ensures |ALPHABET| == 62
    ensures forall i | 0 <= i < 62 :: ALPHABET[i] == AlphabetAt(i)
  {
    UpperRun();
    LowerRun();
    DigitRun();
    forall i | 0 <= i < 62 ensures ALPHABET[i] == AlphabetAt(i) {
      if i < 26 {
        assert ALPHABET[i] == UPPER[i];
      } else if i < 52 {
        assert ALPHABET[i] == LOWER[i - 26];
      } else {
        assert ALPHABET[i] == DIGITS[i - 52];
      }
    }
  }

  /** Every ASCII letter or digit occurs in ALPHABET, and nothing else does. */
  lemma AlphabetIsAlnum(c: char)
    ensures c in ALPHABET <==> IsAsciiAlnum(c)
  {
    AlphabetLayout();
    if IsAsciiAlnum(c) {
      var i := if 'A' <= c <= 'Z' then c as int - 'A' as int
               else if 'a' <= c <= 'z' then c as int - 'a' as int + 26
               else c as int - '0' as int + 52;
      assert ALPHABET[i] == c;
    }
  }

  /** The code a sequence of draws spells. */
  function Spell(draws: seq<nat>): (code: string)
    requires ValidDraws(draws)
    ensures |code| == |draws|
    ensures forall i | 0 <= i < |draws| :: code[i] == ALPHABET[draws[i]]
  {
    seq(|draws|, i requires 0 <= i < |draws| => ALPHABET[draws[i]])
  }

  /** `generateCode(length)`: appends one randomly drawn ALPHABET letter per iteration. */
  method GenerateCode(length: nat, draws: seq<nat>) returns (out: string)
    requires length <= |draws| && ValidDraws(draws[..length])
    ensures out == Spell(draws[..length])
    ensures |out| == length
    ensures forall i | 0 <= i < |out| :: out[i] in ALPHABET
    ensures 1 <= length <= 32 ==> IsCodeValid(out)
  {
    out := "";
    for i := 0 to length
      invariant |out| == i
      invariant forall k | 0 <= k < i :: out[k] == ALPHABET[draws[k]]
    {
      out := out + [ALPHABET[draws[i]]];
    }
    forall i | 0 <= i < |out| ensures IsAsciiAlnum(out[i]) {
      AlphabetIsAlnum(out[i]);
    }
  }

  /** A generated code of any length from 1 to 32 passes `isCodeValid`; of length 0 it is ''. */
  lemma SpelledCodeIsValid(draws: seq<nat>)
    requires ValidDraws(draws)
    ensures 1 <= |draws| <= 32 ==> IsCodeValid(Spell(draws))
    ensures |draws| == 0 ==> Spell(draws) == ""
  {
    var code := Spell(draws);
    forall i | 0 <= i < |code| ensures IsAsciiAlnum(code[i]) {
      AlphabetIsAlnum(code[i]);
    }
  }
}
