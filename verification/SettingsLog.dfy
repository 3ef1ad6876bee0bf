/** The records of a settings area, their layout in flash, and what a flash image says about them. */
module SettingsLog {
  import opened Bytes

  const ADD_BEGIN: nat := 0     // bit numbers of the record flags
  const ADD_COMPLETE: nat := 1
  const DELETED: nat := 2
  const INDEX0: nat := 3

  const HEADER := 8
  const FLAG_SIZE := 4
  const MAX_LEN := 0xFFF4       // the largest length whose padded record stays below 0x10000 octets

  const IN_SWAP: seq<byte> := [0xEF, 0xC5, 0x5C, 0xBE]
  const IN_USE: seq<byte> := [0xEE, 0xC5, 0x5C, 0xBE]
  const NOT_USE: seq<byte> := [0xEC, 0xC5, 0x5C, 0xBE]

  type Image = seq<byte>

  /** Erased octets. */
  function Fill(n: nat): seq<byte> { seq(n, _ => 0xFF) }

  /** How many 4-octet words hold `n` octets. */
  function Words(n: nat): (w: nat)
    ensures n <= 4 * w < n + 4
  {
    if n == 0 then 0 else if n <= 4 then 1 else 1 + Words(n - 4)
  }

  /** The round-up to whole words in 16 bits: the three largest lengths wrap around to 0. */
  function AlignLength(length: u16): (padded: u16) {
    if length + 3 < 0x1_0000 then 4 * Words(length) else 0
  }

  /** It is the addition of 3 in 16 bits with the two lowest bits masked off. */
  lemma AlignIsMask(length: u16)
    ensures AlignLength(length) == (length + 3) % 0x1_0000 / 4 * 4
  {}

  lemma AlignedLength(length: u16)
    ensures AlignLength(length) % 4 == 0
  {}

  type nibble = x: int | 0 <= x < 16

  /** The low flag octet, decoded: a flag is raised by clearing its bit. */
  datatype Flags = Flags(begun: bool, complete: bool, deleted: bool, index0: bool, high: nibble) {
    function Octet(): (x: byte)
      ensures x % 2 == (if begun then 0 else 1)
    {
      Cons(begun, Cons(complete, Cons(deleted, Cons(index0, high))))
    }
  }

  /** A settings block: the packed header fields and the padded payload. */
  datatype Rec = Rec(key: u16, flags: Flags, flagHi: byte, len: u16, reserved: u16, body: seq<byte>) {
    predicate Index0() { flags.index0 }
    predicate Live() { flags.complete && !flags.deleted }
    /** Well formed: a record cut off inside its header can claim any length, a complete one cannot. */
    predicate Wf() { flags.begun && |body| == AlignLength(len) && (flags.complete ==> len <= MAX_LEN) }
    function Size(): nat { HEADER + |body| }
    function Value(): seq<byte> { if len <= |body| then body[..len] else [] }
    function Header(): seq<byte> {
      [key % 256, key / 256, flags.Octet(), flagHi, len % 256, len / 256, reserved % 256, reserved / 256]
    }
    function Bytes(): seq<byte> { Header() + body }
  }

  /** The octet says what the flags say, and clearing one bit of it raises one flag. */
  lemma OctetBits(f: Flags)
    ensures Bit(f.Octet(), 0) <==> !f.begun
    ensures Bit(f.Octet(), 1) <==> !f.complete
    ensures Bit(f.Octet(), 2) <==> !f.deleted
    ensures Bit(f.Octet(), 3) <==> !f.index0
  {
    var d := Cons(f.index0, f.high);
    var c := Cons(f.deleted, d);
    var b := Cons(f.complete, c);
    ConsBit(f.begun, b, 0);
    ConsBit(f.begun, b, 1);
    ConsBit(f.begun, b, 2);
    ConsBit(f.complete, c, 0);
    ConsBit(f.complete, c, 1);
    ConsBit(f.deleted, d, 0);
    ConsBit(f.index0, f.high, 0);
  }

  lemma OctetClear(f: Flags, complete: bool, deleted: bool, index0: bool)
    ensures And(f.Octet(), Flags(false, complete, deleted, index0, 15).Octet())
            == f.(complete := f.complete || complete, deleted := f.deleted || deleted, index0 := f.index0 || index0).Octet()
  {
    var d, e := Cons(f.index0, f.high), Cons(index0, 15);
    var c, g := Cons(f.deleted, d), Cons(deleted, e);
    assert Ones(4) == 15;
    AndMask(f.high, 4);
    ConsAnd(f.index0, f.high, index0, 15);
    ConsAnd(f.deleted, d, deleted, e);
    ConsAnd(f.complete, c, complete, g);
    ConsAnd(f.begun, Cons(f.complete, c), false, Cons(complete, g));
  }

  type Log = seq<Rec>

  ghost predicate AllWf(log: Log) { forall i {:trigger log[i].Wf()} :: 0 <= i < |log| ==> log[i].Wf() }

  /** Offset of record `i` behind the area's flag word. */
  function Off(log: Log, i: nat): nat
    requires i <= |log|
  {
    if i == 0 then 0 else Off(log, i - 1) + log[i - 1].Size()
  }

  function End(log: Log): nat { FLAG_SIZE + Off(log, |log|) }

  lemma {:induction false} OffMono(log: Log, i: nat, j: nat)
    requires i < j <= |log|
    ensures Off(log, i) + log[i].Size() <= Off(log, j)
  {
    if i < j - 1 { OffMono(log, i, j - 1); }
  }

  lemma {:induction false} OffAligned(log: Log, i: nat)
    requires i <= |log| && AllWf(log)
    ensures Off(log, i) % 4 == 0
  {
    if i > 0 {
      OffAligned(log, i - 1);
      assert log[i - 1].Wf();
    }
  }

  /** Offsets depend on the sizes of the earlier records only. */
  lemma {:induction false} OffSame(a: Log, b: Log, i: nat)
    requires i <= |a| && i <= |b|
    requires forall k :: 0 <= k < i ==> a[k].Size() == b[k].Size()
    ensures Off(a, i) == Off(b, i)
  {
    if i > 0 { OffSame(a, b, i - 1); }
  }

  lemma OffAppend(log: Log, r: Rec)
    ensures forall i :: 0 <= i <= |log| ==> Off(log + [r], i) == Off(log, i)
    ensures End(log + [r]) == End(log) + r.Size()
  {
    forall i | 0 <= i <= |log| ensures Off(log + [r], i) == Off(log, i) {
      OffSame(log + [r], log, i);
    }
  }

  /** The image stores the octets `s` at address `p`. */
  predicate At(img: Image, p: int, s: seq<byte>) {
    0 <= p && p + |s| <= |img| && img[p..p + |s|] == s
  }

  predicate Erased(img: Image, lo: int, hi: int) {
    0 <= lo && hi <= |img| && forall i :: lo <= i < hi ==> img[i] == 0xFF
  }

  ghost predicate RecordAt(img: Image, b: nat, log: Log, i: int)
    requires 0 <= i < |log|
  {
    At(img, b + FLAG_SIZE + Off(log, i), log[i].Bytes())
  }

  ghost predicate RecordsAt(img: Image, b: nat, log: Log) {
    forall i :: 0 <= i < |log| ==> RecordAt(img, b, log, i)
  }

  /** The area of `size` octets at `b` parses exactly into the flag word, the chain `log`, and erased cells. */
  ghost predicate Area(img: Image, b: nat, size: nat, word: seq<byte>, log: Log) {
    && AllWf(log)
    && At(img, b, word)
    && RecordsAt(img, b, log)
    && End(log) <= size
    && Erased(img, b + End(log), b + size)
  }

  /** A record's octets determine the record. */
  lemma BytesInjective(img: Image, p: nat, r: Rec, s: Rec)
    requires At(img, p, r.Bytes()) && At(img, p, s.Bytes()) && r.Wf() && s.Wf()
    ensures r == s
  {
    HeaderAt(img, p, r);
    HeaderAt(img, p, s);
    assert img[p..p + r.Size()] == r.Bytes();
    assert r.body == r.Bytes()[HEADER..] && s.body == s.Bytes()[HEADER..];
  }

  lemma HeaderAt(img: Image, p: nat, r: Rec)
    requires At(img, p, r.Bytes())
    ensures p + HEADER <= |img|
    ensures img[p] == r.key % 256 && img[p + 1] == r.key / 256
    ensures img[p + 2] == r.flags.Octet() && img[p + 3] == r.flagHi
    ensures img[p + 4] == r.len % 256 && img[p + 5] == r.len / 256
    ensures img[p + 6] == r.reserved % 256 && img[p + 7] == r.reserved / 256
  {
    var s := r.Bytes();
    assert forall i :: 0 <= i < |s| ==> img[p + i] == img[p..p + |s|][i] == s[i];
  }

  lemma SameRecord(img: Image, b: nat, l: Log, m: Log, i: nat)
    requires RecordsAt(img, b, l) && RecordsAt(img, b, m) && AllWf(l) && AllWf(m)
    requires i < |l| && i < |m| && Off(l, i) == Off(m, i)
    ensures l[i] == m[i]
  {
    var p := b + FLAG_SIZE + Off(l, i);
    assert RecordAt(img, b, l, i) && RecordAt(img, b, m, i);
    BytesInjective(img, p, l[i], m[i]);
  }

  lemma {:induction false} SameOffsets(l: Log, m: Log, n: nat)
    requires n <= |l| && n <= |m|
    requires forall i :: 0 <= i < n && Off(l, i) == Off(m, i) ==> l[i] == m[i]
    ensures Off(l, n) == Off(m, n)
    ensures forall i :: 0 <= i < n ==> l[i] == m[i]
    decreases n
  {
    if n > 0 { SameOffsets(l, m, n - 1); }
  }

  lemma ChainPrefix(img: Image, b: nat, l: Log, m: Log, n: nat)
    requires RecordsAt(img, b, l) && RecordsAt(img, b, m) && AllWf(l) && AllWf(m)
    requires n <= |l| && n <= |m|
    ensures Off(l, n) == Off(m, n)
    ensures forall i :: 0 <= i < n ==> l[i] == m[i]
  {
    forall i | 0 <= i < n && Off(l, i) == Off(m, i) ensures l[i] == m[i] {
      SameRecord(img, b, l, m, i);
    }
    SameOffsets(l, m, n);
  }

  lemma RecordNotErased(img: Image, b: nat, m: Log, i: nat)
    requires RecordsAt(img, b, m) && AllWf(m) && i < |m|
    ensures var p := b + FLAG_SIZE + Off(m, i); p + HEADER <= |img| && img[p + 2] != 0xFF
  {
    var p := b + FLAG_SIZE + Off(m, i);
    assert m[i].Wf() && RecordAt(img, b, m, i);
    HeaderAt(img, p, m[i]);
  }

  /** If one chain parses further than another, the image has a begun record right behind the shorter one. */
  lemma NextRecord(img: Image, b: nat, l: Log, m: Log)
    requires RecordsAt(img, b, l) && RecordsAt(img, b, m) && AllWf(l) && AllWf(m) && |l| < |m|
    ensures End(l) < End(m) && !Erased(img, b + End(l), b + End(m))
  {
    ChainPrefix(img, b, l, m, |l|);
    RecordNotErased(img, b, m, |l|);
    OffMono(m, |l|, |m|);
  }

  lemma NoShorter(img: Image, b: nat, size: nat, w: seq<byte>, l: Log, m: Log)
    requires Area(img, b, size, w, l) && Area(img, b, size, w, m)
    ensures |m| <= |l|
  {
    if |l| < |m| {
      NextRecord(img, b, l, m);
      assert false;
    }
  }

  /** An area holds at most one log: the chain of headers parses in one way only. */
  lemma LogUnique(img: Image, b: nat, size: nat, w: seq<byte>, l: Log, m: Log)
    requires Area(img, b, size, w, l) && Area(img, b, size, w, m)
    ensures l == m
  {
    NoShorter(img, b, size, w, l, m);
    NoShorter(img, b, size, w, m, l);
    forall i | 0 <= i < |l| ensures l[i] == m[i] {
      ChainPrefix(img, b, l, m, i);
      SameRecord(img, b, l, m, i);
    }
  }
}
