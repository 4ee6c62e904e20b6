/** Base-16 text: Rust's `from_str_radix(.., 16)` for the unsigned types the
    decoders parse into, and the zero-padded hex formatting they write. */
module Hex {
  import opened Strings

  /** One past the largest value of `u8`, `u16` and `u32`. */
  const U8_LIMIT: nat := 0x100
  const U16_LIMIT: nat := 0x1_0000
  const U32_LIMIT: nat := 0x1_0000_0000

  /** Value of one base-16 digit of either case; None for any other character. */
  function DigitValue(c: char): (d: Option<nat>)
    ensures d.Some? ==> d.value < 16
  {
    if '0' <= c <= '9' then Some(c as int - '0' as int)
    else if 'a' <= c <= 'f' then Some(c as int - 'a' as int + 10)
    else if 'A' <= c <= 'F' then Some(c as int - 'A' as int + 10)
    else None
  }

  /** Value of a string of hex digits, most significant first; None as soon as a
      character is not a digit. */
  function DigitsValue(s: string): Option<nat>
    decreases |s|
  {
    if s == [] then Some(0)
    else match (DigitsValue(s[..|s| - 1]), DigitValue(s[|s| - 1]))
      case (Some(hi), Some(d)) => Some(hi * 16 + d)
      case _ => None
  }

  /** `from_str_radix(s, 16)` into an unsigned type whose values lie below `limit`:
      an optional '+' followed by at least one digit. Empty text, a lone sign, a
      '-' sign, any non-digit and a value of `limit` or more are all errors. */
  function FromStrRadix16(s: string, limit: nat): (r: Option<nat>)
    ensures r.Some? ==> r.value < limit
  {
    if s == [] then None
    else
      var digits := if s[0] == '+' then s[1..] else s;
      if digits == [] then None
      else match DigitsValue(digits)
        case Some(v) => if v < limit then Some(v) else None
        case None => None
  }

  /** The digits `from_str_radix` reads: the text after one optional leading '+'. */
  function Unsigned(s: string): string {
    if s != [] && s[0] == '+' then s[1..] else s
  }

  /** `from_str_radix` succeeds exactly on an optional '+' followed by at least one
      digit, all of whose digits together are worth less than `limit`, and it
      yields that worth. So an empty text, a lone '+', a '-', any other character
      and a value of `limit` or more (the overflow of the target type) all fail. */
  lemma FromStrRadix16Meaning(s: string, limit: nat)
    ensures FromStrRadix16(s, limit).Some? <==>
      Unsigned(s) != [] && DigitsValue(Unsigned(s)).Some? && DigitsValue(Unsigned(s)).value < limit
    ensures FromStrRadix16(s, limit).Some? ==> FromStrRadix16(s, limit).value == DigitsValue(Unsigned(s)).value
  {
  }

  /** Concrete failures: a lone '+', a '-' sign, and 0x100 into `u8`. */
  lemma FromStrRadix16Rejects()
    ensures FromStrRadix16("+", U16_LIMIT) == None
    ensures FromStrRadix16("-1", U16_LIMIT) == None
    ensures FromStrRadix16("100", U8_LIMIT) == None && FromStrRadix16("ff", U8_LIMIT) == Some(0xff)
    ensures FromStrRadix16("12", U8_LIMIT) == Some(0x12)
  {
    assert "+"[1..] == [];
    assert "-1"[..1] == "-";
    assert "100"[..2] == "10" && "100"[..2][..1] == "1" && "100"[..2][..1][..0] == [];
    assert "ff"[..1] == "f" && "ff"[..1][..0] == [];
    assert "12"[..1] == "1" && "12"[..1][..0] == [];
  }

  lemma {:induction false} DigitsValueChars(s: string)
    requires DigitsValue(s).Some?
    ensures forall k :: 0 <= k < |s| ==> DigitValue(s[k]).Some?
    decreases |s|
  {
    if s != [] {
      DigitsValueChars(s[..|s| - 1]);
      assert forall k :: 0 <= k < |s| - 1 ==> s[..|s| - 1][k] == s[k];
    }
  }

  /** Text accepted by `FromStrRadix16` is made of hex digits, except for a
      leading '+': in particular it holds no space, comma or colon. */
  lemma ParsedTextChars(s: string, limit: nat)
    requires FromStrRadix16(s, limit).Some?
    ensures s != [] && s != "+"
    ensures forall k :: 0 <= k < |s| ==> DigitValue(s[k]).Some? || (k == 0 && s[k] == '+')
  {
    var digits := if s[0] == '+' then s[1..] else s;
    DigitsValueChars(digits);
    if s[0] == '+' {
      assert forall k :: 1 <= k < |s| ==> s[k] == digits[k - 1];
    }
  }

  function Pow16(n: nat): nat {
    if n == 0 then 1 else 16 * Pow16(n - 1)
  }

  lemma Pow16Widths()
    ensures Pow16(2) == U8_LIMIT && Pow16(4) == U16_LIMIT && Pow16(8) == U32_LIMIT
  {
  }

  /** A digit as Rust's `x` (lower case) or `X` (upper case) formatting writes it. */
  function HexDigit(d: nat, upper: bool): (c: char)
    requires d < 16
    ensures DigitValue(c) == Some(d)
  {
    if d < 10 then ('0' as int + d) as char
    else if upper then ('A' as int + d - 10) as char
    else ('a' as int + d - 10) as char
  }

  /** The digits written by `{:0Nx}` / `{:0NX}`: hex of a digit case, in only that case. */
  predicate IsHexOfCase(c: char, upper: bool) {
    '0' <= c <= '9' || (upper && 'A' <= c <= 'F') || (!upper && 'a' <= c <= 'f')
  }

  /** The lowest `width` hex digits of `v`, most significant first: for a value
      below `Pow16(width)`, `v` zero-padded on the left to `width` digits. */
  function Pad(v: nat, width: nat, upper: bool): (r: string)
    ensures |r| == width
    decreases width
  {
    if width == 0 then "" else Pad(v / 16, width - 1, upper) + [HexDigit(v % 16, upper)]
  }

  /** Every character of the padded text is a digit of the requested case. */
  lemma {:induction false} PadDigits(v: nat, width: nat, upper: bool)
    ensures forall k :: 0 <= k < width ==> IsHexOfCase(Pad(v, width, upper)[k], upper)
    decreases width
  {
    if width > 0 {
      PadDigits(v / 16, width - 1, upper);
      var r := Pad(v, width, upper);
      assert forall k :: 0 <= k < width - 1 ==> r[k] == Pad(v / 16, width - 1, upper)[k];
    }
  }

  lemma DivBelow(v: nat, p: nat)
    requires v < 16 * p
    ensures v / 16 < p
  {
  }

  /** Reading back the padded digits gives the value. */
  lemma {:induction false} PadValue(v: nat, width: nat, upper: bool)
    requires v < Pow16(width)
    ensures DigitsValue(Pad(v, width, upper)) == Some(v)
    decreases width
  {
    if width > 0 {
      DivBelow(v, Pow16(width - 1));
      PadValue(v / 16, width - 1, upper);
      var r := Pad(v, width, upper);
      assert r[..|r| - 1] == Pad(v / 16, width - 1, upper);
    }
  }

  /** `from_str_radix` inverts the padded formatting for any value of the type. */
  lemma PadRoundTrip(v: nat, width: nat, upper: bool, limit: nat)
    requires 0 < width && v < Pow16(width) && v < limit
    ensures FromStrRadix16(Pad(v, width, upper), limit) == Some(v)
  {
    PadValue(v, width, upper);
    var r := Pad(v, width, upper);
    assert r[0] != '+' by { PadDigits(v, width, upper); assert IsHexOfCase(r[0], upper); }
  }
}
