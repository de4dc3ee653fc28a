/**
  The `{:?}` rendering of a raw pointer: `0x` followed by the address in
  lower-case hexadecimal without leading zeros (`0x0` for address zero).
 */
module PointerFormat {

  predicate IsHexDigit(c: char) {
    '0' <= c <= '9' || 'a' <= c <= 'f'
  }

  function HexDigit(d: nat): (c: char)
    requires d < 16
    ensures IsHexDigit(c)
  {
    if d < 10 then ('0' as int + d) as char else ('a' as int + d - 10) as char
  }

  function DigitValue(c: char): (d: nat)
    requires IsHexDigit(c)
    ensures d < 16 && HexDigit(d) == c
  {
    if c <= '9' then c as int - '0' as int else c as int - 'a' as int + 10
  }

  /** The hexadecimal digits of `n`, most significant first. */
  function HexDigits(n: nat): (s: string)
    ensures |s| >= 1
    ensures forall i :: 0 <= i < |s| ==> IsHexDigit(s[i])
    ensures n > 0 ==> s[0] != '0'
    decreases n
  {
    if n < 16 then [HexDigit(n)] else HexDigits(n / 16) + [HexDigit(n % 16)]
  }

  /** Reads a string of hexadecimal digits back as a number. */
  function ParseHex(s: string): (n: nat)
    requires forall i :: 0 <= i < |s| ==> IsHexDigit(s[i])
  {
    if s == [] then 0 else ParseHex(s[..|s| - 1]) * 16 + DigitValue(s[|s| - 1])
  }

  lemma {:induction false} ParseHexDigits(n: nat)
    ensures ParseHex(HexDigits(n)) == n
    decreases n
  {
    var s := HexDigits(n);
    if n < 16 {
      assert s[..|s| - 1] == [];
    } else {
      assert s[..|s| - 1] == HexDigits(n / 16);
      ParseHexDigits(n / 16);
    }
  }

  function PointerDebug(p: nat): (s: string)
    ensures |s| >= 3 && s[..2] == "0x"
    ensures forall i :: 2 <= i < |s| ==> IsHexDigit(s[i])
  {
    "0x" + HexDigits(p)
  }

  /** Distinct addresses render as distinct text. */
  lemma PointerDebugInjective(p: nat, q: nat)
    requires PointerDebug(p) == PointerDebug(q)
    ensures p == q
  {
    assert HexDigits(p) == PointerDebug(p)[2..];
    assert HexDigits(q) == PointerDebug(q)[2..];
    ParseHexDigits(p);
    ParseHexDigits(q);
  }
}
