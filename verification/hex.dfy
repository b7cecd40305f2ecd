/** Hexadecimal chunk sizes: which characters `parseInt(c, 16)` accepts, the
    value it gives one of them, and the positional value of a digit string. */
module Hex {

  /** The characters `parseInt(c, 16)` turns into a number; any other single
      character gives NaN. */
  predicate IsHexDigit(c: char) {
    ('0' <= c <= '9') || ('a' <= c <= 'f') || ('A' <= c <= 'F')
  }

  /** Exactly 22 characters are digits: ten decimal ones and six letters in
      each case. */
  lemma HexDigitsListed(c: char)
    ensures IsHexDigit(c) <==> c in "0123456789abcdefABCDEF"
  {
  }

  predicate AllHex(s: string) {
    forall i :: 0 <= i < |s| ==> IsHexDigit(s[i])
  }

  /** The value of one hexadecimal digit, in either case. */
  function DigitValue(c: char): (v: nat)
    requires IsHexDigit(c)
    ensures v < 16
    ensures ('0' <= c <= '9') ==> v < 10
  {
    if '0' <= c <= '9' then c as int - '0' as int
    else if 'a' <= c <= 'f' then c as int - 'a' as int + 10
    else c as int - 'A' as int + 10
  }

  function Pow16(n: nat): (p: nat)
    ensures p >= 1
  {
    if n == 0 then 1 else 16 * Pow16(n - 1)
  }

  /** The number a string of hexadecimal digits denotes, most significant
      digit first; the empty string denotes 0. */
  function HexValue(s: string): (v: nat)
    requires AllHex(s)
    ensures v < Pow16(|s|)
  {
    if s == [] then 0
    else
      var front := s[..|s| - 1];
      assert AllHex(front) by {
        forall i | 0 <= i < |front| ensures IsHexDigit(front[i]) {
          assert front[i] == s[i];
        }
      }
      HexValue(front) * 16 + DigitValue(s[|s| - 1])
  }

  /** The lower-case digit for a value below 16. */
  function HexDigit(v: nat): (c: char)
    requires v < 16
    ensures IsHexDigit(c) && DigitValue(c) == v
  {
    if v < 10 then ('0' as int + v) as char else ('a' as int + v - 10) as char
  }

  /** `parseInt` reads digits without regard to case: an upper-case digit is
      worth what its lower-case form is worth, and every other digit is the
      one `HexDigit` spells for its value, which pins the value of all 22. */
  lemma DigitValueSpelling(c: char)
    requires IsHexDigit(c)
    ensures 'A' <= c <= 'F' ==>
      IsHexDigit((c as int + 32) as char) && DigitValue(c) == DigitValue((c as int + 32) as char)
    ensures !('A' <= c <= 'F') ==> HexDigit(DigitValue(c)) == c
  {
  }

  /** The shortest hexadecimal spelling of n, as a server writes a chunk size. */
  function ToHex(n: nat): (s: string)
    ensures AllHex(s) && |s| >= 1
    ensures n < 16 ==> |s| == 1
    decreases n
  {
    if n < 16 then [HexDigit(n)] else ToHex(n / 16) + [HexDigit(n % 16)]
  }

  /** Reading back the spelling of n gives n. */
  lemma {:induction false} HexRoundTrip(n: nat)
    ensures HexValue(ToHex(n)) == n
    decreases n
  {
    if n >= 16 {
      HexRoundTrip(n / 16);
      var s := ToHex(n);
      assert s[..|s| - 1] == ToHex(n / 16);
      assert s[|s| - 1] == HexDigit(n % 16);
    }
  }
}
