/** Octets, 16-bit fields and the bitwise AND that a flash write performs. */
module Bytes {

  type byte = x: int | 0 <= x < 0x100
  type u16 = x: int | 0 <= x < 0x1_0000

  /** Bit `k` of `x`. */
  predicate Bit(x: nat, k: nat) {
    if k == 0 then x % 2 == 1 else Bit(x / 2, k - 1)
  }

  /** Bitwise AND of two octets, least significant bit first. */
  function And(a: nat, b: nat): (r: nat)
    ensures r <= a && r <= b
  {
    if a == 0 || b == 0 then 0 else (if a % 2 == 1 && b % 2 == 1 then 1 else 0) + 2 * And(a / 2, b / 2)
  }

  lemma {:induction false} AndBit(a: nat, b: nat, k: nat)
    ensures Bit(And(a, b), k) <==> Bit(a, k) && Bit(b, k)
    decreases k
  {
    if a == 0 || b == 0 {
      ZeroBit(k);
    } else if k > 0 {
      AndBit(a / 2, b / 2, k - 1);
    }
  }

  lemma {:induction false} ZeroBit(k: nat)
    ensures !Bit(0, k)
  {
    if k > 0 { ZeroBit(k - 1); }
  }

  lemma {:induction false} AndSelf(a: nat)
    ensures And(a, a) == a
  {
    if a > 0 { AndSelf(a / 2); }
  }

  /** Clearing bits already cleared changes nothing. */
  lemma {:induction false} AndAbsorb(a: nat, b: nat)
    ensures And(a, And(a, b)) == And(a, b)
  {
    if a != 0 && b != 0 {
      AndAbsorb(a / 2, b / 2);
    }
  }

  /** All-ones octets are the neutral element: erased cells take any octet, and 0xFF padding is harmless. */
  lemma AndOnes(a: byte)
    ensures And(a, 0xFF) == a && And(0xFF, a) == a
  {
    AndMask(a, 8);
    AndCommutes(a, 0xFF);
  }

  function Ones(k: nat): nat {
    if k == 0 then 0 else 1 + 2 * Ones(k - 1)
  }


  lemma {:induction false} AndCommutes(a: nat, b: nat)
    ensures And(a, b) == And(b, a)
  {
    if a != 0 && b != 0 {
      AndCommutes(a / 2, b / 2);
    }
  }

  lemma {:induction false} AndMask(a: nat, k: nat)
    requires a <= Ones(k)
    ensures And(a, Ones(k)) == a
  {
    if a != 0 && k != 0 {
      var o := Ones(k);
      assert o % 2 == 1 && o / 2 == Ones(k - 1);
      AndMask(a / 2, k - 1);
    }
  }

  /** An octet built from its least significant bit, which is clear exactly when `raised`. */
  function Cons(raised: bool, rest: nat): nat { (if raised then 0 else 1) + 2 * rest }

  lemma ConsBit(raised: bool, rest: nat, k: nat)
    ensures Bit(Cons(raised, rest), 0) <==> !raised
    ensures Bit(Cons(raised, rest), k + 1) <==> Bit(rest, k)
  {
    assert Cons(raised, rest) / 2 == rest;
  }

  lemma ConsAnd(raised: bool, rest: nat, clear: bool, mask: nat)
    ensures And(Cons(raised, rest), Cons(clear, mask)) == Cons(raised || clear, And(rest, mask))
  {
    var a, b := Cons(raised, rest), Cons(clear, mask);
    assert a / 2 == rest && b / 2 == mask;
    assert a % 2 == (if raised then 0 else 1) && b % 2 == (if clear then 0 else 1);
  }
}
