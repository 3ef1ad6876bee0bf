/** The KNX 2-octet float: encoding hundredths with rounding, and how far decoding lands from the original. */
module KnxFloat {

  const MANT_MAX := 2047
  const MANT_MIN := -2048
  const MANTISSAS := 2048

  type f16 = x: int | 0 <= x < 0x1_0000

  predicate Fits(m: int) { MANT_MIN <= m <= MANT_MAX }

  /** Values an exponent of at most 15 can reach. */
  predicate InRange(v: int) { -0x400_0000 <= v < 0x400_0000 }

  function Abs(x: int): nat { if x < 0 then -x else x }

  /** How often `v` is halved, rounding down, until it fits. */
  function Exponent(v: int): nat
    decreases Abs(v)
  {
    if Fits(v) then 0 else 1 + Exponent(v / 2)
  }

  /** The last value ahead of the final halving. */
  function Last(v: int): int
    requires !Fits(v)
    decreases Abs(v)
  {
    if Fits(v / 2) then v else Last(v / 2)
  }

  /** `m` times two to the `e`. */
  function Scale(m: int, e: nat): int {
    if e == 0 then m else 2 * Scale(m, e - 1)
  }

  /** The mantissa: the last bit shifted out rounds up. */
  function Mantissa(v: int): int {
    if Fits(v) then v else Last(v) / 2 + Last(v) % 2
  }

  /** The bit fields of an encoded number. */
  function Pack(mant: int, exp: nat, negative: bool): f16 {
    mant % MANTISSAS + exp % 16 * MANTISSAS + if negative then 0x8000 else 0
  }

  /** An encoded number in hundredths. */
  function Decode(x: f16): int {
    var mant, exp := x % MANTISSAS, x / MANTISSAS % 16;
    if x >= 0x8000 then -Scale(MANTISSAS - mant, exp) else Scale(mant, exp)
  }

  method Encode(v: int) returns (result: f16)
    ensures result == Pack(Mantissa(v), Exponent(v), v < 0)
  {
    var mant, exp, round: nat := v, 0, 0;
    var negative := v < 0;
    if negative {
      while mant < MANT_MIN
        invariant Shifting(v, mant, exp, round) && mant < 0
        decreases Abs(mant)
      {
        ShiftStep(v, mant, exp, round);
        exp, round, mant := exp + 1, mant % 2, mant / 2;
      }
    } else {
      while mant > MANT_MAX
        invariant Shifting(v, mant, exp, round) && mant >= 0
        decreases mant
      {
        ShiftStep(v, mant, exp, round);
        exp, round, mant := exp + 1, mant % 2, mant / 2;
      }
    }
    if round != 0 {
      mant := mant + 1;
    }
    result := Pack(mant, exp, negative);
  }

  /** The shift loop after `exp` halvings. */
  ghost predicate Shifting(v: int, mant: int, exp: nat, round: nat) {
    && exp + Exponent(mant) == Exponent(v) && round < 2
    && (if exp == 0 then mant == v && round == 0
        else !Fits(v) && Last(v) == if Fits(mant) then 2 * mant + round else Last(mant))
  }

  lemma ShiftStep(v: int, mant: int, exp: nat, round: nat)
    requires Shifting(v, mant, exp, round) && !Fits(mant)
    ensures Shifting(v, mant / 2, exp + 1, mant % 2)
  {
    assert Last(mant) == if Fits(mant / 2) then mant else Last(mant / 2);
  }

  /* ---- scaling ---- */

  lemma {:induction false} ScaleAdd(a: int, b: int, e: nat)
    ensures Scale(a + b, e) == Scale(a, e) + Scale(b, e)
  {
    if e > 0 { ScaleAdd(a, b, e - 1); }
  }

  lemma {:induction false} ScaleMono(a: int, b: int, e: nat)
    requires a <= b
    ensures Scale(a, e) <= Scale(b, e)
  {
    if e > 0 { ScaleMono(a, b, e - 1); }
  }

  lemma {:induction false} ScaleDouble(a: int, e: nat)
    ensures Scale(2 * a, e) == Scale(a, e + 1)
  {
    if e > 0 { ScaleDouble(a, e - 1); }
  }

  /** A larger exponent moves a positive number up and a negative one down. */
  lemma {:induction false} ScaleUp(a: int, e: nat, f: nat)
    requires e <= f
    ensures a >= 0 ==> Scale(a, e) <= Scale(a, f)
    ensures a <= 0 ==> Scale(a, e) >= Scale(a, f)
    decreases f
  {
    if e < f { ScaleUp(a, e, f - 1); }
    ScaleSign(a, f);
    if f > 0 { ScaleSign(a, f - 1); }
  }

  lemma {:induction false} ScaleSign(a: int, e: nat)
    ensures a >= 0 ==> Scale(a, e) >= 0
    ensures a <= 0 ==> Scale(a, e) <= 0
    ensures a > 0 ==> Scale(a, e) > 0
  {
    if e > 0 { ScaleSign(a, e - 1); }
  }

  /* ---- what the shifts leave ---- */

  lemma {:induction false} LastRange(v: int)
    requires !Fits(v)
    ensures !Fits(Last(v)) && Fits(Last(v) / 2) && (v < 0 <==> Last(v) < 0)
    decreases Abs(v)
  {
    if !Fits(v / 2) { LastRange(v / 2); }
  }

  /** The bits shifted out ahead of the last one. */
  lemma {:induction false} LastBounds(v: int)
    requires !Fits(v)
    ensures Exponent(v) > 0
    ensures var e := Exponent(v) - 1; Scale(Last(v), e) <= v < Scale(Last(v), e) + Scale(1, e)
    decreases Abs(v)
  {
    if !Fits(v / 2) { LastBounds(v / 2); }
  }

  /** The exponent fits its four bits exactly for the values in range. */
  lemma {:induction false} ExponentRange(v: int, n: nat)
    ensures Exponent(v) <= n <==> Scale(MANT_MIN, n) <= v < Scale(MANTISSAS, n)
    decreases n
  {
    ScaleSign(MANTISSAS, n);
    if n > 0 {
      ExponentRange(v / 2, n - 1);
      ScaleUp(MANTISSAS, 0, n);
      ScaleUp(MANT_MIN, 0, n);
    }
  }

  lemma ExponentFits(v: int)
    ensures Exponent(v) <= 15 <==> InRange(v)
  {
    ExponentRange(v, 15);
    assert Scale(MANTISSAS, 1) == 0x1000 && Scale(MANT_MIN, 1) == -0x1000;
    assert Scale(MANTISSAS, 5) == 0x1_0000 && Scale(MANT_MIN, 5) == -0x1_0000;
    assert Scale(MANTISSAS, 10) == 0x20_0000 && Scale(MANT_MIN, 10) == -0x20_0000;
    assert Scale(MANTISSAS, 15) == 0x400_0000 && Scale(MANT_MIN, 15) == -0x400_0000;
  }

  /** The shifted mantissa is all ones and rounds up: it no longer fits its field. */
  predicate Overflows(v: int) { !Fits(v) && Last(v) == 2 * MANT_MAX + 1 }

  lemma MantissaRange(v: int)
    ensures MANT_MIN <= Mantissa(v) <= MANT_MAX + 1
    ensures Mantissa(v) == MANT_MAX + 1 <==> Overflows(v)
    ensures v < 0 <==> Mantissa(v) < 0
    ensures !Fits(v) ==> Mantissa(v) <= MANT_MIN / 2 || Mantissa(v) >= MANTISSAS / 2
  {
    if !Fits(v) { LastRange(v); }
  }

  /** Decoding what was encoded gives the scaled mantissa, except that an overflowing mantissa is lost altogether. */
  lemma DecodeEncoded(v: int)
    requires InRange(v)
    ensures Decode(Pack(Mantissa(v), Exponent(v), v < 0)) == if Overflows(v) then 0 else Scale(Mantissa(v), Exponent(v))
  {
    var m, e := Mantissa(v), Exponent(v);
    MantissaRange(v);
    ExponentFits(v);
    ScaleZero(e);
    PackFields(m, e, v < 0);
    if v < 0 {
      ScaleNegate(m, e);
    }
  }

  lemma PackFields(m: int, e: nat, negative: bool)
    requires MANT_MIN <= m <= MANT_MAX + 1 && e <= 15 && (negative <==> m < 0)
    ensures var x := Pack(m, e, negative);
            && x % MANTISSAS == (if m < 0 then m + MANTISSAS else if m <= MANT_MAX then m else 0)
            && x / MANTISSAS % 16 == e && (x >= 0x8000 <==> negative)
  {}

  lemma {:induction false} ScaleZero(e: nat)
    ensures Scale(0, e) == 0
  {
    if e > 0 { ScaleZero(e - 1); }
  }

  lemma ScaleNegate(m: int, e: nat)
    ensures Scale(-m, e) == -Scale(m, e)
  {
    ScaleAdd(m, -m, e);
    ScaleZero(e);
  }

  /** Half a step of the chosen exponent. */
  function HalfStep(e: nat): int { if e == 0 then 0 else Scale(1, e - 1) }

  lemma HalfStepIs(e: nat)
    ensures HalfStep(0) == 0 && (e > 0 ==> 2 * HalfStep(e) == Scale(1, e))
  {}

  lemma RoundingError(v: int)
    ensures Abs(Scale(Mantissa(v), Exponent(v)) - v) <= HalfStep(Exponent(v))
  {
    if !Fits(v) {
      var e, l := Exponent(v) - 1, Last(v);
      LastBounds(v);
      ScaleDouble(Mantissa(v), e);
      assert 2 * Mantissa(v) == l + l % 2;
      ScaleAdd(l, l % 2, e);
      ScaleZero(e);
    }
  }

  /** The exact bound: decoding is off by at most half a step, with no error at exponent 0, unless the mantissa overflows. */
  lemma BoundExact(v: int)
    requires InRange(v)
    ensures var d, e := Decode(Pack(Mantissa(v), Exponent(v), v < 0)), Exponent(v);
            Abs(d - v) <= HalfStep(e) <==> !Overflows(v)
    ensures Exponent(v) == 0 ==> Decode(Pack(Mantissa(v), 0, v < 0)) == v
  {
    DecodeEncoded(v);
    RoundingError(v);
    if Overflows(v) {
      var e := Exponent(v) - 1;
      LastBounds(v);
      ScaleMono(2, 2 * MANT_MAX + 1, e);
      ScaleDouble(1, e);
      ScaleSign(1, e);
    }
  }

  /** The least value that overflows: 40.95 is encoded as 0. */
  lemma OverflowWitness()
    ensures Overflows(4095) && InRange(4095) && Decode(Pack(Mantissa(4095), Exponent(4095), false)) == 0
    ensures forall v :: 0 <= v < 4095 ==> !Overflows(v)
  {
    assert Last(4095) == 4095;
    DecodeEncoded(4095);
    forall v | 0 <= v < 4095 ensures !Overflows(v) {
      assert Fits(v) || (Fits(v / 2) && Last(v) == v);
    }
  }

  /** What the format can represent is encoded without error. */
  lemma {:induction false} RepresentableExact(m: int, e: nat)
    requires Fits(m)
    ensures var v := Scale(m, e); !Overflows(v) && Scale(Mantissa(v), Exponent(v)) == v
    decreases e
  {
    var v := Scale(m, e);
    if !Fits(v) {
      var u := Scale(m, e - 1);
      assert v == 2 * u && v / 2 == u;
      RepresentableExact(m, e - 1);
      if !Fits(u) {
        assert Mantissa(v) == Mantissa(u) && Exponent(v) == Exponent(u) + 1;
      }
    }
  }

  /** So decoding any of the 65536 numbers and encoding the value again gives a number of the same value. */
  lemma DecodedExact(x: f16)
    ensures var v := Decode(x); InRange(v) && Decode(Pack(Mantissa(v), Exponent(v), v < 0)) == v
  {
    var mant, e := x % MANTISSAS, x / MANTISSAS % 16;
    var m := if x >= 0x8000 then mant - MANTISSAS else mant;
    ScaleNegate(MANTISSAS - mant, e);
    RepresentableExact(m, e);
    ExponentBound(m, e);
    ExponentFits(Decode(x));
    DecodeEncoded(Decode(x));
  }

  lemma {:induction false} ExponentBound(m: int, e: nat)
    requires Fits(m)
    ensures Exponent(Scale(m, e)) <= e
    decreases e
  {
    if e > 0 {
      assert Scale(m, e) / 2 == Scale(m, e - 1);
      ExponentBound(m, e - 1);
    }
  }

  /** The layout, on numbers of the standard: the ends of the range, 0, the least steps, and the first with an exponent. */
  lemma KnownNumbers()
    ensures Pack(Mantissa(0), Exponent(0), false) == 0x0000 && Pack(Mantissa(1), Exponent(1), false) == 0x0001
    ensures Pack(Mantissa(-1), Exponent(-1), true) == 0x87FF && Pack(Mantissa(2048), Exponent(2048), false) == 0x0C00
    ensures Decode(0x7FFF) == 67076096 && Decode(0xF800) == -67108864
  {
    assert Last(2048) == 2048;
    assert Scale(2047, 5) == 65504 && Scale(2047, 10) == 2096128 && Scale(2047, 15) == 67076096;
    assert Scale(2048, 5) == 65536 && Scale(2048, 10) == 2097152 && Scale(2048, 15) == 67108864;
  }

  /* ---- order ---- */

  lemma {:induction false} SameExponent(a: int, b: int)
    requires !Fits(a) && !Fits(b) && a <= b && Exponent(a) == Exponent(b)
    ensures Last(a) <= Last(b)
    decreases Abs(a)
  {
    if !Fits(a / 2) {
      assert Exponent(b / 2) > 0;
      SameExponent(a / 2, b / 2);
    } else {
      assert Exponent(b / 2) == 0;
    }
  }

  lemma {:induction false} ExponentMono(a: int, b: int)
    requires 0 <= a <= b || b <= a < 0
    ensures Exponent(a) <= Exponent(b)
    decreases Abs(a)
  {
    if !Fits(a) { ExponentMono(a / 2, b / 2); }
  }

  /** Where rounding does not overflow, encoding preserves order. */
  lemma OrderPreserved(a: int, b: int)
    requires InRange(a) && InRange(b) && a <= b && !Overflows(a) && !Overflows(b)
    ensures Decode(Pack(Mantissa(a), Exponent(a), a < 0)) <= Decode(Pack(Mantissa(b), Exponent(b), b < 0))
  {
    DecodeEncoded(a);
    DecodeEncoded(b);
    ScaledOrder(a, b);
  }

  lemma ApartAbove(m: int, e: nat, n: int, f: nat)
    requires m <= MANTISSAS && MANTISSAS / 2 <= n && e < f
    ensures Scale(m, e) <= Scale(n, f)
  {
    ScaleMono(m, MANTISSAS, e);
    ScaleUp(MANTISSAS, e, f - 1);
    ScaleDouble(MANTISSAS / 2, f - 1);
    ScaleMono(MANTISSAS / 2, n, f);
  }

  lemma ApartBelow(m: int, e: nat, n: int, f: nat)
    requires m <= MANT_MIN / 2 && MANT_MIN <= n && f < e
    ensures Scale(m, e) <= Scale(n, f)
  {
    ScaleMono(MANT_MIN, n, f);
    ScaleUp(MANT_MIN, f, e - 1);
    ScaleDouble(MANT_MIN / 2, e - 1);
    ScaleMono(m, MANT_MIN / 2, e);
  }

  lemma ScaledOrder(a: int, b: int)
    requires a <= b && !Overflows(a) && !Overflows(b)
    ensures Scale(Mantissa(a), Exponent(a)) <= Scale(Mantissa(b), Exponent(b))
  {
    var m, n, e, f := Mantissa(a), Mantissa(b), Exponent(a), Exponent(b);
    MantissaRange(a);
    MantissaRange(b);
    if e == f {
      if !Fits(a) { SameExponent(a, b); }
      ScaleMono(m, n, e);
    } else if a < 0 <= b {
      ScaleSign(m, e);
      ScaleSign(n, f);
    } else if a >= 0 {
      ExponentMono(a, b);
      ApartAbove(m, e, n, f);
    } else {
      ExponentMono(b, a);
      ApartBelow(m, e, n, f);
    }
  }
}
