/**
 * A game's key (`Jogo.JogoId`) is a .NET `Guid`. The banner file name is the
 * Guid's default text ("D" format: 32 lower-case hexadecimal digits in groups
 * of 8-4-4-4-12 separated by hyphens) followed by the file extension.
 *
 * A Guid is modelled by its 32 hexadecimal digits in the order the text shows
 * them; how .NET lays the 16 bytes out in memory does not matter here.
 */
module Guids {

  newtype Nibble = x: int | 0 <= x < 16

  type Guid = s: seq<Nibble> | |s| == 32 witness seq(32, _ => 0)

  const HexDigits: string := "0123456789abcdef"

  /** The lower-case hexadecimal digit for `n`. */
  function HexDigit(n: Nibble): (c: char)
    ensures IsLowerHex(c)
    ensures n < 10 ==> c as int == '0' as int + n as int
    ensures 10 <= n ==> c as int == 'a' as int + n as int - 10
  {
    HexDigits[n]
  }

  predicate IsLowerHex(c: char) {
    '0' <= c <= '9' || 'a' <= c <= 'f'
  }

  /** The digits of `s`, one character each. */
  function Hex(s: seq<Nibble>): (t: string)
    ensures |t| == |s|
    ensures forall i :: 0 <= i < |s| ==> t[i] == HexDigit(s[i])
  {
    seq(|s|, i requires 0 <= i < |s| => HexDigit(s[i]))
  }

  /** `Guid.ToString()`: the "D" format, e.g. 3f2504e0-4f89-11d3-9a0c-0305e82c3301. */
  function GuidText(g: Guid): (t: string)
    ensures |t| == 36
    ensures forall k :: 0 <= k < 36 ==> (t[k] == '-' <==> k == 8 || k == 13 || k == 18 || k == 23)
    ensures forall k :: 0 <= k < 36 ==> t[k] == '-' || IsLowerHex(t[k])
  {
    Hex(g[..8]) + "-" + Hex(g[8..12]) + "-" + Hex(g[12..16]) + "-" + Hex(g[16..20]) + "-" + Hex(g[20..])
  }

  /** Where digit `i` of a Guid stands in its text: after one hyphen per group already passed. */
  function TextPosition(i: nat): (k: nat)
    requires i < 32
    ensures k < 36
  {
    if i < 8 then i else if i < 12 then i + 1 else if i < 16 then i + 2 else if i < 20 then i + 3 else i + 4
  }

  lemma GuidTextDigit(g: Guid, i: nat)
    requires i < 32
    ensures GuidText(g)[TextPosition(i)] == HexDigit(g[i])
  {
  }

  lemma HexDigitInjective(m: Nibble, n: Nibble)
    requires HexDigit(m) == HexDigit(n)
    ensures m == n
  {
  }

  /** Two different games never get the same text, hence never the same banner file name. */
  lemma GuidTextInjective(g: Guid, h: Guid)
    requires GuidText(g) == GuidText(h)
    ensures g == h
  {
    forall i | 0 <= i < 32
      ensures g[i] == h[i]
    {
      GuidTextDigit(g, i);
      GuidTextDigit(h, i);
      HexDigitInjective(g[i], h[i]);
    }
  }
}
