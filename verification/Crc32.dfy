/** The nibble-table CRC-32 against the bit-by-bit definition of section 8 of RFC 1952. */
module Crc32 {

  type octet = bv8
  type word = bv32

  const POLYNOMIAL: word := 0xEDB88320
  const INITIAL: word := 0xFFFFFFFF

  const TABLE: seq<word> :=
    [0x00000000, 0x1db71064, 0x3b6e20c8, 0x26d930ac, 0x76dc4190, 0x6b6b51f4, 0x4db26158, 0x5005713c,
     0xedb88320, 0xf00f9344, 0xd6d6a3e8, 0xcb61b38c, 0x9b64c2b0, 0x86d3d2d4, 0xa00ae278, 0xbdbdf21c]

  /** One step of the reflected shift register. */
  function BitStep(c: word): word { if c & 1 == 1 then POLYNOMIAL ^ (c >> 1) else c >> 1 }

  function Steps(c: word, n: nat): word {
    if n == 0 then c else BitStep(Steps(c, n - 1))
  }

  /** Each octet is XORed in, and the register steps eight times. */
  function OctetStep(c: word, b: octet): word { Steps(c ^ (b as word), 8) }

  function Fold<S, T>(step: (S, T) -> S, s: S, data: seq<T>): S {
    if data == [] then s else step(Fold(step, s, data[..|data| - 1]), data[|data| - 1])
  }

  /** The definition: the register after all octets of the data. */
  function Update(c: word, data: seq<octet>): word { Fold(OctetStep, c, data) }

  /** The checksum of a whole message. */
  function Crc(data: seq<octet>): word { Complement(Update(INITIAL, data)) }

  function Complement(c: word): word { c ^ 0xFFFFFFFF }

  /** Every bit is inverted. */
  lemma ComplementBits(c: word)
    ensures Complement(c) & c == 0 && Complement(c) | c == 0xFFFFFFFF
  {}

  lemma NextOctet(data: seq<octet>, n: nat, c: word, d: word)
    requires n < |data| && Update(INITIAL, data[..n]) == c
    requires NibbleStep(NibbleStep(c ^ (data[n] as word))) == d
    ensures Update(INITIAL, data[..n + 1]) == d
  {
    var x := c ^ (data[n] as word);
    assert data[..n + 1][..n] == data[..n];
    NibbleIsFour(x, 0);
    NibbleIsFour(x, 4);
  }

  /** The customary check value: the checksum of the nine digits 1 to 9. */
  lemma CheckValue()
    ensures Crc([0x31, 0x32, 0x33, 0x34, 0x35, 0x36, 0x37, 0x38, 0x39]) == 0xCBF43926
  {
    var d: seq<octet> := [0x31, 0x32, 0x33, 0x34, 0x35, 0x36, 0x37, 0x38, 0x39];
    assert d[..0] == [];
    NextOctet(d, 0, 0xFFFFFFFF, 0x7C231048);
    NextOctet(d, 1, 0x7C231048, 0xB0ACBB32);
    NextOctet(d, 2, 0xB0ACBB32, 0x77B79C2D);
    NextOctet(d, 3, 0x77B79C2D, 0x641C1F5C);
    NextOctet(d, 4, 0x641C1F5C, 0x340AC5E3);
    NextOctet(d, 5, 0x340AC5E3, 0xF68D2C9E);
    NextOctet(d, 6, 0xF68D2C9E, 0xAFFC9660);
    NextOctet(d, 7, 0xAFFC9660, 0x651F2550);
    NextOctet(d, 8, 0x651F2550, 0x340BC6D9);
    assert d[..9] == d;
  }

  function NibbleStep(c: word): word { TABLE[(c & 0xf) as int] ^ (c >> 4) }

  lemma NibbleTable(c: word)
    ensures NibbleStep(c) == BitStep(BitStep(BitStep(BitStep(c))))
  {
    var n := c & 0xf;
    if n == 0 {} else if n == 1 {} else if n == 2 {} else if n == 3 {}
    else if n == 4 {} else if n == 5 {} else if n == 6 {} else if n == 7 {}
    else if n == 8 {} else if n == 9 {} else if n == 10 {} else if n == 11 {}
    else if n == 12 {} else if n == 13 {} else if n == 14 {} else { assert n == 15; }
  }

  /** One table look-up is four steps of the register, from every state. */
  lemma NibbleIsFour(c: word, n: nat)
    ensures NibbleStep(Steps(c, n)) == Steps(c, n + 4)
  {
    NibbleTable(Steps(c, n));
    assert Steps(c, n + 1) == BitStep(Steps(c, n));
    assert Steps(c, n + 2) == BitStep(Steps(c, n + 1));
    assert Steps(c, n + 3) == BitStep(Steps(c, n + 2));
  }

  lemma {:induction false} FoldSplit<S, T>(step: (S, T) -> S, s: S, a: seq<T>, b: seq<T>)
    ensures Fold(step, s, a + b) == Fold(step, Fold(step, s, a), b)
    decreases |b|
  {
    if b == [] {
      assert a + b == a;
    } else {
      var n := |b| - 1;
      assert (a + b)[..|a + b| - 1] == a + b[..n];
      FoldSplit(step, s, a, b[..n]);
    }
  }

  lemma UpdateNothing(c: word)
    ensures Update(c, []) == c
  {}

  /** Streaming over any split is the same as one pass. */
  lemma UpdateSplit(c: word, a: seq<octet>, b: seq<octet>)
    ensures Update(c, a + b) == Update(Update(c, a), b)
  {
    FoldSplit(OctetStep, c, a, b);
  }

  lemma {:induction false} FoldInjective<S(!new), T(!new)>(step: (S, T) -> S, s: S, t: S, data: seq<T>)
    requires forall x, y, b :: step(x, b) == step(y, b) ==> x == y
    requires Fold(step, s, data) == Fold(step, t, data)
    ensures s == t
    decreases |data|
  {
    if data != [] { FoldInjective(step, s, t, data[..|data| - 1]); }
  }

  /** The register never forgets its start: two different start states stay different over every message. */
  lemma UpdateInjective(c: word, d: word, data: seq<octet>)
    requires Update(c, data) == Update(d, data)
    ensures c == d
  {
    forall x, y, b | OctetStep(x, b) == OctetStep(y, b) ensures x == y {
      StepInjective(x, y, b);
    }
    FoldInjective(OctetStep, c, d, data);
  }

  lemma StepInjective(x: word, y: word, b: octet)
    requires OctetStep(x, b) == OctetStep(y, b)
    ensures x == y
  {
    StepsXorInjective(x, y, b as word, 8);
  }

  lemma StepsXorInjective(x: word, y: word, w: word, n: nat)
    requires Steps(x ^ w, n) == Steps(y ^ w, n)
    ensures x == y
  {
    StepsInjective(x ^ w, y ^ w, n);
    XorInjective(x, y, w);
  }

  lemma BitStepInjective(c: word, d: word)
    requires BitStep(c) == BitStep(d)
    ensures c == d
  {}

  lemma {:induction false} StepsInjective(c: word, d: word, n: nat)
    requires Steps(c, n) == Steps(d, n)
    ensures c == d
    decreases n
  {
    if n > 0 {
      BitStepInjective(Steps(c, n - 1), Steps(d, n - 1));
      StepsInjective(c, d, n - 1);
    }
  }

  lemma XorInjective(x: word, y: word, b: word)
    requires x ^ b == y ^ b
    ensures x == y
  {
    assert (x ^ b) ^ b == x;
  }

  lemma ComplementInjective(x: word, y: word)
    requires Complement(x) == Complement(y)
    ensures x == y
  {
    XorInjective(x, y, 0xFFFFFFFF);
  }

  /** The streaming hash: two table look-ups per octet. */
  method Stream(data: seq<octet>, start: word) returns (crc: word)
    ensures crc == Update(start, data)
  {
    crc := start;
    for i := 0 to |data|
      invariant crc == Update(start, data[..i])
    {
      assert data[..i + 1][..i] == data[..i];
      crc := crc ^ (data[i] as word);
      NibbleIsFour(crc, 0);
      NibbleIsFour(crc, 4);
      crc := NibbleStep(crc);
      crc := NibbleStep(crc);
    }
    assert data[..|data|] == data;
  }

  method Hash(data: seq<octet>) returns (crc: word)
    ensures crc == Crc(data)
  {
    crc := Stream(data, INITIAL);
    crc := Complement(crc);
  }
}
