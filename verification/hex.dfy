/** `int(s, 16)` restricted to its core grammar: a non-empty run of hexadecimal
    digits of either case. Anything else is a `ValueError`, modelled as `None`. */
module Hex {
  import opened Wrappers

  predicate IsHexDigit(c: char) {
    '0' <= c <= '9' || 'a' <= c <= 'f' || 'A' <= c <= 'F'
  }

  /** The strings `ParseHex` accepts. */
  predicate IsHexString(s: string) {
    |s| > 0 && forall i :: 0 <= i < |s| ==> IsHexDigit(s[i])
  }

  function DigitValue(c: char): (d: nat)
    requires IsHexDigit(c)
    ensures d < 16
  {
    if '0' <= c <= '9' then c as int - '0' as int
    else if 'a' <= c <= 'f' then c as int - 'a' as int + 10
    else c as int - 'A' as int + 10
  }

  function Pow16(n: nat): (r: nat)
    ensures r >= 1
  {
    if n == 0 then 1 else 16 * Pow16(n - 1)
  }

  /** The value of a digit string read most-significant digit first; it has
      fewer than `|s|` hexadecimal places. */
  function Value(s: string): (v: nat)
    requires forall i :: 0 <= i < |s| ==> IsHexDigit(s[i])
    ensures v < Pow16(|s|)
    decreases |s|
  {
    if s == [] then 0
    else Value(s[..|s| - 1]) * 16 + DigitValue(s[|s| - 1])
  }

  /** `int(s, 16)`: defined exactly on non-empty hex-digit strings. */
  function ParseHex(s: string): (r: Option<nat>)
    ensures r.Some? <==> IsHexString(s)
    ensures r.Some? ==> r.value < Pow16(|s|)
  {
    if IsHexString(s) then Some(Value(s)) else None
  }

  /** A token of at most two hex digits denotes a byte value. */
  lemma TwoDigitsIsByte(s: string)
    requires |s| <= 2 && ParseHex(s).Some?
    ensures ParseHex(s).value < 256
  {
    if |s| == 1 {
      assert Pow16(1) == 16;
    } else {
      assert Pow16(2) == 256;
    }
  }

  /** The lower-case digit for a value below 16. */
  function Digit(d: nat): (c: char)
    requires d < 16
    ensures IsHexDigit(c) && DigitValue(c) == d
  {
    if d < 10 then ('0' as int + d) as char else ('a' as int + d - 10) as char
  }

  /** `format(n, 'x')`: the shortest lower-case hex spelling of `n`. */
  function ToHex(n: nat): (s: string)
    ensures IsHexString(s)
    decreases n
  {
    if n < 16 then [Digit(n)] else ToHex(n / 16) + [Digit(n % 16)]
  }

  /** Parsing the spelling of a number gives the number back. */
  lemma {:induction false} ParseToHex(n: nat)
    ensures ParseHex(ToHex(n)) == Some(n)
    decreases n
  {
    if n >= 16 {
      ParseToHex(n / 16);
      var s := ToHex(n);
      assert s[..|s| - 1] == ToHex(n / 16);
      assert Value(s) == Value(ToHex(n / 16)) * 16 + n % 16;
    }
  }

  // ---------------------------------------------------------------------------
  // Other spellings: upper case and leading zeros.
  // ---------------------------------------------------------------------------

  /** The upper-case form of a hex digit; it denotes the same value. */
  function UpperDigit(c: char): (u: char)
    requires IsHexDigit(c)
    ensures IsHexDigit(u) && DigitValue(u) == DigitValue(c)
    ensures !('a' <= u <= 'f')
  {
    if 'a' <= c <= 'f' then (c as int - 'a' as int + 'A' as int) as char else c
  }

  /** `s.upper()` on a digit string. */
  function Upper(s: string): (u: string)
    requires forall i :: 0 <= i < |s| ==> IsHexDigit(s[i])
    ensures |u| == |s|
    ensures forall i :: 0 <= i < |s| ==> u[i] == UpperDigit(s[i])
    decreases |s|
  {
    if s == [] then [] else Upper(s[..|s| - 1]) + [UpperDigit(s[|s| - 1])]
  }

  /** Case does not matter: an upper-cased digit string has the same value. */
  lemma {:induction false} ValueUpper(s: string)
    requires forall i :: 0 <= i < |s| ==> IsHexDigit(s[i])
    ensures Value(Upper(s)) == Value(s)
    decreases |s|
  {
    if s != [] {
      var u := Upper(s);
      assert u[..|u| - 1] == Upper(s[..|s| - 1]);
      ValueUpper(s[..|s| - 1]);
    }
  }

  /** `n` zero digits. */
  function Zeros(n: nat): (z: string)
    ensures |z| == n && forall i :: 0 <= i < n ==> z[i] == '0'
  {
    if n == 0 then [] else Zeros(n - 1) + ['0']
  }

  /** A string of zero digits has value 0. */
  lemma {:induction false} ValueZeros(n: nat)
    ensures Value(Zeros(n)) == 0
  {
    if n > 0 {
      assert Zeros(n)[..n - 1] == Zeros(n - 1);
      ValueZeros(n - 1);
    }
  }

  /** Leading zeros do not change the value. */
  lemma {:induction false} ValueLeadingZeros(n: nat, s: string)
    requires forall i :: 0 <= i < |s| ==> IsHexDigit(s[i])
    ensures Value(Zeros(n) + s) == Value(s)
    decreases |s|
  {
    var t := Zeros(n) + s;
    if s == [] {
      assert t == Zeros(n);
      ValueZeros(n);
    } else {
      assert t[..|t| - 1] == Zeros(n) + s[..|s| - 1];
      assert t[|t| - 1] == s[|s| - 1];
      ValueLeadingZeros(n, s[..|s| - 1]);
    }
  }

  /** How a number is written: lower or upper case, padded with leading zeros
      to at least `width` digits, as in `format(n, '02X')`. */
  datatype Spelling = Spelling(upper: bool, width: nat)

  /** The shortest lower-case spelling, `format(n, 'x')`. */
  const Plain := Spelling(false, 0)

  /** Two upper-case digits, `format(n, '02X')`: how a CAN log writes bytes. */
  const ByteStyle := Spelling(true, 2)

  /** The digits of `n` without padding, in the case `sp` asks for. */
  function Digits(n: nat, upper: bool): (d: string)
    ensures IsHexString(d) && Value(d) == n
    ensures !upper ==> d == ToHex(n)
    ensures |d| == |ToHex(n)|
  {
    ParseToHex(n);
    if upper then
      ValueUpper(ToHex(n));
      Upper(ToHex(n))
    else ToHex(n)
  }

  /** `n` written in the spelling `sp`: every spelling parses back to `n`,
      because `int(s, 16)` ignores case and leading zeros. */
  function Spell(n: nat, sp: Spelling): (s: string)
    ensures IsHexString(s) && |s| >= sp.width
    ensures ParseHex(s) == Some(n)
  {
    var digits := Digits(n, sp.upper);
    var pad := if sp.width > |digits| then sp.width - |digits| else 0;
    ValueLeadingZeros(pad, digits);
    Zeros(pad) + digits
  }

  /** Every spelling of a number parses back to the number. */
  lemma ParseSpell(n: nat, sp: Spelling)
    ensures ParseHex(Spell(n, sp)) == Some(n)
  {
  }

  /** `Plain` is `format(n, 'x')`, the spelling `ToHex` writes. */
  lemma PlainSpelling(n: nat)
    ensures Spell(n, Plain) == ToHex(n)
  {
    assert Zeros(0) == [];
  }

  /** A value below 256 has at most two digits. */
  lemma ToHexByte(n: nat)
    requires n < 256
    ensures |ToHex(n)| <= 2
  {
  }

  /** A byte in `ByteStyle` is exactly two digits. */
  lemma ByteStyleWidth(n: nat)
    requires n < 256
    ensures |Spell(n, ByteStyle)| == 2
  {
    ToHexByte(n);
    assert |Digits(n, true)| <= 2;
  }

  /** Spellings as they appear in a CAN log. */
  lemma LogSpellings()
    ensures ParseHex("01") == Some(0x01)
    ensures ParseHex("1F") == Some(0x1F) && ParseHex("4C") == Some(0x4C)
    ensures ParseHex("1A2B") == Some(0x1A2B) && ParseHex("201") == Some(0x201)
    ensures ParseHex("ff") == Some(255) && ParseHex("FF") == Some(255)
  {
    assert "01"[..1] == "0" && "1F"[..1] == "1" && "4C"[..1] == "4";
    assert "1A2B"[..3] == "1A2";
    assert "1A2"[..2] == "1A" by {
      assert |"1A2"[..2]| == 2 && "1A2"[..2][0] == '1' && "1A2"[..2][1] == 'A';
    }
    assert "1A"[..1] == "1";
    assert "201"[..2] == "20" && "20"[..1] == "2";
    assert "ff"[..1] == "f" && "FF"[..1] == "F";
  }

  /** Positional notation: the digits of `a` count `16^|b|` times as much as
      they would alone. */
  lemma {:induction false} ValueAppend(a: string, b: string)
    requires forall i :: 0 <= i < |a| ==> IsHexDigit(a[i])
    requires forall i :: 0 <= i < |b| ==> IsHexDigit(b[i])
    ensures Value(a + b) == Value(a) * Pow16(|b|) + Value(b)
    decreases |b|
  {
    var t := a + b;
    if b == [] {
      assert t == a;
    } else {
      var b' := b[..|b| - 1];
      var d := DigitValue(b[|b| - 1]);
      assert Value(t) == Value(a + b') * 16 + d by {
        assert t[..|t| - 1] == a + b';
        assert t[|t| - 1] == b[|b| - 1];
      }
      ValueAppend(a, b');
      assert Value(b) == Value(b') * 16 + d;
      assert Pow16(|b|) == 16 * Pow16(|b'|);
      ShiftDigit(Value(t), Value(a), Pow16(|b'|), Value(b'), d, Pow16(|b|));
    }
  }

  /** Every digit's value, in both cases: `0`-`9` are 0-9, and `a`-`f` and
      `A`-`F` are 10-15. */
  lemma DigitTable()
    ensures ParseHex("0") == Some(0) && ParseHex("1") == Some(1) && ParseHex("2") == Some(2) && ParseHex("3") == Some(3)
    ensures ParseHex("4") == Some(4) && ParseHex("5") == Some(5) && ParseHex("6") == Some(6) && ParseHex("7") == Some(7)
    ensures ParseHex("8") == Some(8) && ParseHex("9") == Some(9) && ParseHex("a") == Some(10) && ParseHex("b") == Some(11)
    ensures ParseHex("c") == Some(12) && ParseHex("d") == Some(13) && ParseHex("e") == Some(14) && ParseHex("f") == Some(15)
    ensures ParseHex("A") == Some(10) && ParseHex("B") == Some(11) && ParseHex("C") == Some(12) && ParseHex("D") == Some(13)
    ensures ParseHex("E") == Some(14) && ParseHex("F") == Some(15)
  {
    OneDigit('0'); OneDigit('1'); OneDigit('2'); OneDigit('3'); OneDigit('4'); OneDigit('5'); OneDigit('6');
    OneDigit('7'); OneDigit('8'); OneDigit('9'); OneDigit('a'); OneDigit('b'); OneDigit('c'); OneDigit('d');
    OneDigit('e'); OneDigit('f'); OneDigit('A'); OneDigit('B'); OneDigit('C'); OneDigit('D'); OneDigit('E');
    OneDigit('F');
  }

  /** A single digit parses to its own value. */
  lemma OneDigit(c: char)
    requires IsHexDigit(c)
    ensures ParseHex([c]) == Some(DigitValue(c))
  {
    assert [c][..0] == [];
  }

  /** Appending digit `d` multiplies everything before it by 16. */
  lemma ShiftDigit(v: nat, x: nat, p: nat, y: nat, d: nat, q: nat)
    requires v == (x * p + y) * 16 + d && q == 16 * p
    ensures v == x * q + (y * 16 + d)
  {
    assert (x * p + y) * 16 == x * (16 * p) + y * 16;
  }
}
