/** `parse_position`: decodes the motor-position reply carried by an 8-byte CAN
    payload. */
module Frame {
  import Dequant

  /** Only payloads of this many bytes are decoded. */
  const FrameLength: nat := 8
  /** Tag byte of a motor reply (`data[0] == 0x01`). */
  const MotorReplyTag: nat := 0x01
  /** The decoded range, written as the literals the source uses (not pi). */
  const PositionMin: real := -3.14159
  const PositionMax: real := 3.14159
  /** Width of the position code. */
  const PositionBits: nat := 16

  /** Python's `a | b` on non-negative integers: a bit is set in the result
      exactly when it is set in `a` or in `b`, so the result is at least each
      operand and at most their sum. */
  function BitOr(a: nat, b: nat): (r: nat)
    ensures a <= r && b <= r && r <= a + b
    decreases a + b
  {
    if a == 0 then b
    else if b == 0 then a
    else 2 * BitOr(a / 2, b / 2) + (if a % 2 == 1 || b % 2 == 1 then 1 else 0)
  }

  /** When `b` fits below bit `k`, or-ing it into a multiple of `2^k` is
      addition. */
  lemma {:induction false} OrIntoLowBits(a: nat, k: nat, b: nat)
    requires b < Dequant.Pow2(k)
    ensures BitOr(a * Dequant.Pow2(k), b) == a * Dequant.Pow2(k) + b
    decreases k
  {
    var hi := a * Dequant.Pow2(k);
    if k == 0 {
      assert b == 0;
    } else if a != 0 && b != 0 {
      var half := a * Dequant.Pow2(k - 1);
      assert hi == 2 * half;
      assert hi / 2 == half && hi % 2 == 0;
      OrIntoLowBits(a, k - 1, b / 2);
      assert BitOr(hi, b) == 2 * BitOr(half, b / 2) + b % 2;
    }
  }

  /** Bit `i` of `n`, that is `(n >> i) & 1 == 1`. */
  predicate Bit(n: nat, i: nat)
    decreases i
  {
    if i == 0 then n % 2 == 1 else Bit(n / 2, i - 1)
  }

  /** Zero has no bit set. */
  lemma {:induction false} ZeroBits(i: nat)
    ensures !Bit(0, i)
    decreases i
  {
    if i > 0 {
      ZeroBits(i - 1);
    }
  }

  /** `BitOr` is the bitwise or: bit `i` of the result is set exactly when bit
      `i` of `a` or of `b` is. */
  lemma {:induction false} BitOrBits(a: nat, b: nat, i: nat)
    ensures Bit(BitOr(a, b), i) <==> Bit(a, i) || Bit(b, i)
    decreases i
  {
    if a == 0 {
      ZeroBits(i);
    } else if b == 0 {
      ZeroBits(i);
    } else {
      var r := BitOr(a, b);
      var low := if a % 2 == 1 || b % 2 == 1 then 1 else 0;
      assert r == 2 * BitOr(a / 2, b / 2) + low;
      assert r % 2 == low && r / 2 == BitOr(a / 2, b / 2);
      if i > 0 {
        BitOrBits(a / 2, b / 2, i - 1);
      }
    }
  }

  /** A number is determined by its bits, so the bit-wise statement of
      `BitOrBits` singles out `BitOr` among all functions. */
  lemma {:induction false} SameBitsSame(x: nat, y: nat)
    requires forall i: nat :: Bit(x, i) == Bit(y, i)
    ensures x == y
    decreases x + y
  {
    assert Bit(x, 0) == Bit(y, 0);
    if x != 0 || y != 0 {
      forall i: nat ensures Bit(x / 2, i) == Bit(y / 2, i) {
        assert Bit(x, i + 1) == Bit(y, i + 1);
      }
      SameBitsSame(x / 2, y / 2);
    }
  }

  /** The 16-bit position code `(data[1] << 8) | data[2]`. When both bytes are
      below 256 it is the big-endian value `data[1] * 256 + data[2]` and fits
      in 16 bits. */
  function PositionCode(data: seq<nat>): (code: nat)
    requires |data| >= 3
    ensures data[2] < 256 ==> code == data[1] * 256 + data[2]
    ensures data[1] < 256 && data[2] < 256 ==> code <= Dequant.MaxCode(PositionBits)
  {
    CodeWidth();
    if data[2] < 256 then
      OrIntoLowBits(data[1], 8, data[2]);
      BitOr(data[1] * 256, data[2])
    else
      BitOr(data[1] * 256, data[2])
  }

  lemma {:induction false} PowAdd(m: nat, n: nat)
    ensures Dequant.Pow2(m + n) == Dequant.Pow2(m) * Dequant.Pow2(n)
    decreases m
  {
    if m > 0 {
      PowAdd(m - 1, n);
    }
  }

  /** A shift by 8 is a factor 256, and a 16-bit code is at most 65535. */
  lemma CodeWidth()
    ensures Dequant.Pow2(8) == 256
    ensures Dequant.MaxCode(PositionBits) == 65535
  {
    assert Dequant.Pow2(4) == 16;
    PowAdd(8, 8);
  }

  /** Python's `float(n)` on a non-negative integer rounds to the nearest
      double, ties to even, and raises `OverflowError` when that would be
      2^1024 or more. The least such integer is 2^1024 - 2^970, the largest
      finite double plus half a unit in its last place (`FloatLimitValue`). */
  const FloatLimit: nat := 179769313486231580793728971405303415079934132710037826936173778980444968292764750946649017977587207096330286416692887910946555547851940402630657488671505820681908902000708383676273854845817711531764475730270069855571366959622842914819860834936475292719074168444365510704342711559699508093042880177904174497792

  /** `float(n)` raises `OverflowError`. */
  predicate FloatOverflows(n: nat) {
    n >= FloatLimit
  }

  /** `2^n` by repeated squaring, so that large powers of two can be evaluated
      in a few steps; `FastPow2IsPow2` shows it agrees with `Pow2`. */
  function FastPow2(n: nat): nat
    decreases n
  {
    if n == 0 then 1
    else if n % 2 == 1 then 2 * FastPow2(n - 1)
    else FastPow2(n / 2) * FastPow2(n / 2)
  }

  lemma {:induction false} FastPow2IsPow2(n: nat)
    ensures FastPow2(n) == Dequant.Pow2(n)
    decreases n
  {
    if n > 0 {
      if n % 2 == 1 {
        FastPow2IsPow2(n - 1);
      } else {
        FastPow2IsPow2(n / 2);
        PowAdd(n / 2, n / 2);
      }
    }
  }

  /** The overflow threshold is 2^1024 - 2^970. */
  lemma FloatLimitValue()
    ensures FloatLimit == FastPow2(1024) - FastPow2(970)
  {
    assert FastPow2(2) == 4;
    assert FastPow2(3) == 8;
    assert FastPow2(4) == 16;
    assert FastPow2(6) == 64;
    assert FastPow2(7) == 2 * FastPow2(6);
    assert FastPow2(8) == FastPow2(4) * FastPow2(4);
    assert FastPow2(14) == FastPow2(7) * FastPow2(7);
    assert FastPow2(15) == 2 * FastPow2(14);
    assert FastPow2(16) == FastPow2(8) * FastPow2(8);
    assert FastPow2(30) == FastPow2(15) * FastPow2(15);
    assert FastPow2(32) == FastPow2(16) * FastPow2(16);
    assert FastPow2(60) == FastPow2(30) * FastPow2(30);
    assert FastPow2(64) == FastPow2(32) * FastPow2(32);
    assert FastPow2(120) == FastPow2(60) * FastPow2(60);
    assert FastPow2(121) == 2 * FastPow2(120);
    assert FastPow2(128) == FastPow2(64) * FastPow2(64);
    assert FastPow2(242) == FastPow2(121) * FastPow2(121);
    assert FastPow2(256) == FastPow2(128) * FastPow2(128);
    assert FastPow2(484) == FastPow2(242) * FastPow2(242);
    assert FastPow2(485) == 2 * FastPow2(484);
    assert FastPow2(512) == FastPow2(256) * FastPow2(256);
    assert FastPow2(970) == FastPow2(485) * FastPow2(485);
    assert FastPow2(1024) == FastPow2(512) * FastPow2(512);
  }

  /** What `parse_position` does with a payload: it returns `None`, returns a
      position, or raises `OverflowError` inside `float(x_int)`. */
  datatype Parsed = NoPosition | Position(value: real) | TooLarge

  /** `parse_position(data)`: no position exactly when the payload is not 8
      values long or its tag is not `0x01`; otherwise an overflow exactly when
      the code is too large for `float`, and else the de-quantized code. For
      genuine bytes that is always a position: the big-endian value of bytes
      1 and 2, within `[PositionMin, PositionMax]`. */
  function ParsePosition(data: seq<nat>): (r: Parsed)
    ensures r.NoPosition? <==> |data| != FrameLength || data[0] != MotorReplyTag
    ensures r.TooLarge? <==>
              |data| == FrameLength && data[0] == MotorReplyTag && FloatOverflows(PositionCode(data))
    ensures r.Position? ==>
              r.value == Dequant.UintToFloat(PositionCode(data), PositionMin, PositionMax, PositionBits)
    ensures |data| == FrameLength && data[0] == MotorReplyTag && data[1] < 256 && data[2] < 256 ==>
              && r.Position?
              && r.value == Dequant.UintToFloat(data[1] * 256 + data[2], PositionMin, PositionMax, PositionBits)
              && PositionMin <= r.value <= PositionMax
  {
    if |data| != FrameLength || data[0] != MotorReplyTag then NoPosition
    else
      var code := PositionCode(data);
      if FloatOverflows(code) then TooLarge
      else Position(Dequant.UintToFloat(code, PositionMin, PositionMax, PositionBits))
  }

  /** Bytes `00 00` decode to the lower end and `FF FF` to the upper end. */
  lemma ParsePositionEndpoints(data: seq<nat>)
    requires |data| == FrameLength && data[0] == MotorReplyTag
    ensures data[1] == 0 && data[2] == 0 ==> ParsePosition(data) == Position(PositionMin)
    ensures data[1] == 0xFF && data[2] == 0xFF ==> ParsePosition(data) == Position(PositionMax)
  {
    var code := data[1] * 256 + data[2];
    CodeWidth();
  }

  /** For genuine bytes, a larger big-endian value in bytes 1-2 never decodes
      to a smaller position. */
  lemma ParsePositionMonotone(d: seq<nat>, e: seq<nat>)
    requires |d| == FrameLength && d[0] == MotorReplyTag && d[1] < 256 && d[2] < 256
    requires |e| == FrameLength && e[0] == MotorReplyTag && e[1] < 256 && e[2] < 256
    requires d[1] * 256 + d[2] <= e[1] * 256 + e[2]
    ensures ParsePosition(d).value <= ParsePosition(e).value
  {
    Dequant.Monotone(d[1] * 256 + d[2], e[1] * 256 + e[2], PositionMin, PositionMax, PositionBits);
  }

  /** Payload `01 80 00 ...` (code 32768) decodes to just above zero: the
      odd denominator 65535 puts no code exactly on the midpoint. */
  lemma ParsePositionMidpoint()
    ensures var p := ParsePosition([1, 0x80, 0, 0, 0, 0, 0, 0]).value;
            0.0 < p < 0.0001
  {
    var data: seq<nat> := [1, 0x80, 0, 0, 0, 0, 0, 0];
    CodeWidth();
    assert ParsePosition(data).value == (32768 as real) * 6.28318 / 65535.0 - 3.14159;
  }

  /** `0x100 | 0x1FF` is `0x1FF`: bit 8 is already set in `0x1FF`. */
  lemma OrOverlap()
    ensures BitOr(256, 511) == 511
  {
    assert BitOr(1, 3) == 3;
    assert BitOr(2, 7) == 7;
    assert BitOr(4, 15) == 15;
    assert BitOr(8, 31) == 31;
    assert BitOr(16, 63) == 63;
    assert BitOr(32, 127) == 127;
    assert BitOr(64, 255) == 255;
    assert BitOr(128, 511) == 511;
  }

  /** A byte token above `FF` is not rejected, and because the code is built
      with `|` rather than `+`, `01 01 1FF ...` decodes code `0x1FF`, the same
      position as `01 01 FF ...`, not `0x100 + 0x1FF`. */
  lemma ParsePositionOrNotAdd()
    ensures ParsePosition([1, 1, 0x1FF, 0, 0, 0, 0, 0]) == ParsePosition([1, 1, 0xFF, 0, 0, 0, 0, 0])
    ensures PositionCode([1, 1, 0x1FF, 0, 0, 0, 0, 0]) == 0x1FF
  {
    WideCode();
    ByteCode();
    SameCodeSamePosition([1, 1, 0x1FF, 0, 0, 0, 0, 0], [1, 1, 0xFF, 0, 0, 0, 0, 0]);
  }

  /** The code of `01 01 1FF ...` is `0x100 | 0x1FF`. */
  lemma WideCode()
    ensures PositionCode([1, 1, 0x1FF, 0, 0, 0, 0, 0]) == 0x1FF
  {
    OrOverlap();
  }

  /** The code of `01 01 FF ...` is `0x100 + 0xFF`. */
  lemma ByteCode()
    ensures PositionCode([1, 1, 0xFF, 0, 0, 0, 0, 0]) == 0x1FF
  {
    var byte: seq<nat> := [1, 1, 0xFF, 0, 0, 0, 0, 0];
    assert byte[1] == 1 && byte[2] == 0xFF;
  }

  /** Two motor replies with the same position code decode alike. */
  lemma SameCodeSamePosition(d: seq<nat>, e: seq<nat>)
    requires |d| == FrameLength && d[0] == MotorReplyTag
    requires |e| == FrameLength && e[0] == MotorReplyTag
    requires PositionCode(d) == PositionCode(e)
    ensures ParsePosition(d) == ParsePosition(e)
  {
  }

  /** A byte token of `100` in position 1 yields code `0x10000`, outside the
      16-bit range, and a position above `PositionMax`. */
  lemma ParsePositionBeyondRange()
    ensures ParsePosition([1, 0x100, 0, 0, 0, 0, 0, 0]).value > PositionMax
  {
    var data: seq<nat> := [1, 0x100, 0, 0, 0, 0, 0, 0];
    assert PositionCode(data) == 65536;
    CodeWidth();
    Dequant.StrictlyMonotone(65535, 65536, PositionMin, PositionMax, PositionBits);
  }

  /** The overflow boundary is reachable through the unchecked byte tokens: a
      code of `FloatLimit` raises, one less still decodes. */
  lemma ParsePositionOverflowBoundary()
    ensures ParsePosition([1, 0, FloatLimit, 0, 0, 0, 0, 0]).TooLarge?
    ensures ParsePosition([1, 0, FloatLimit - 1, 0, 0, 0, 0, 0]).Position?
  {
    var over: seq<nat> := [1, 0, FloatLimit, 0, 0, 0, 0, 0];
    var under: seq<nat> := [1, 0, FloatLimit - 1, 0, 0, 0, 0, 0];
    assert PositionCode(over) == FloatLimit;
    assert PositionCode(under) == FloatLimit - 1;
  }
}
