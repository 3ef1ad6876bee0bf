/** NOR flash as an array of octets: a write can only clear bits, a page erase sets them all. */
module FlashImage {
  import opened Bytes
  import opened SettingsLog

  /** The image after writing `data` at `addr`; octets past the end of the device are dropped. */
  function Program(img: Image, addr: nat, data: seq<byte>): (r: Image)
    ensures |r| == |img|
    ensures forall i :: 0 <= i < |img| ==> r[i] == if addr <= i < addr + |data| then And(img[i], data[i - addr]) else img[i]
  {
    seq(|img|, i requires 0 <= i < |img| => if addr <= i < addr + |data| then And(img[i], data[i - addr]) else img[i])
  }

  function Wiped(img: Image, lo: nat, hi: nat): (r: Image)
    ensures |r| == |img|
    ensures forall i :: 0 <= i < |img| ==> r[i] == if lo <= i < hi then 0xFF else img[i]
  {
    seq(|img|, i requires 0 <= i < |img| => if lo <= i < hi then 0xFF else img[i])
  }

  /** Page boundaries are the multiples of the page size. */
  predicate OnPage(addr: nat, page: nat)
    requires page > 0
  {
    addr == 0 || (addr >= page && OnPage(addr - page, page))
  }

  /** Start of the page that holds `addr`. */
  function PageStart(addr: nat, page: nat): (p: nat)
    requires page > 0
    ensures OnPage(p, page) && p <= addr < p + page
    ensures OnPage(addr, page) ==> p == addr
  {
    if addr < page then 0 else page + PageStart(addr - page, page)
  }

  /** The two images differ at most inside [lo, hi). */
  predicate SameOutside(a: Image, b: Image, lo: int, hi: int) {
    |a| == |b| && forall i :: 0 <= i < |a| && !(lo <= i < hi) ==> a[i] == b[i]
  }

  /** The history only grew, by images that differ from `img` at most inside [lo, hi). */
  ghost predicate ChangedWithin(before: seq<Image>, now: seq<Image>, img: Image, lo: int, hi: int) {
    before <= now && forall k :: |before| <= k < |now| ==> SameOutside(now[k], img, lo, hi)
  }

  /** Erased cells take what is written to them. */
  lemma ProgramErased(img: Image, addr: nat, data: seq<byte>)
    requires addr + |data| <= |img| && Erased(img, addr, addr + |data|)
    ensures At(Program(img, addr, data), addr, data)
  {
    var r := Program(img, addr, data);
    forall i | 0 <= i < |data| ensures r[addr..addr + |data|][i] == data[i] {
      AndOnes(data[i]);
    }
  }

  /** Two adjacent writes are one. */
  lemma ProgramJoin(img: Image, addr: nat, a: seq<byte>, b: seq<byte>)
    ensures Program(Program(img, addr, a), addr + |a|, b) == Program(img, addr, a + b)
  {}

  lemma ProgramNothing(img: Image, addr: nat)
    ensures Program(img, addr, []) == img
  {}

  /* ---- images on the way ---- */

  /** The octets of a write that land on the device. */
  function Landed(img: Image, addr: nat, data: seq<byte>): seq<byte> {
    if addr + |data| <= |img| then data else if addr <= |img| then data[..|img| - addr] else []
  }

  lemma LandedOnly(img: Image, addr: nat, data: seq<byte>)
    ensures Program(img, addr, Landed(img, addr, data)) == Program(img, addr, data)
  {}

  /** The images after each whole word among the first `n` octets of a write, and at its end. */
  function StagesTo(img: Image, addr: nat, data: seq<byte>, n: nat): seq<Image>
    requires n <= |data|
  {
    if n == 0 then [] else
    StagesTo(img, addr, data, n - 1) + if n == |data| || (addr + n) % 4 == 0 then [Program(img, addr, data[..n])] else []
  }

  /** All images a write leaves on its way. */
  function Stages(img: Image, addr: nat, data: seq<byte>): seq<Image> {
    StagesTo(img, addr, Landed(img, addr, data), |Landed(img, addr, data)|)
  }

  /** The image of a write that is done or was cut off behind a whole word. */
  ghost predicate IsStage(s: Image, img: Image, addr: nat, data: seq<byte>) {
    s == Program(img, addr, data) || exists n :: 0 < n < |data| && (addr + n) % 4 == 0 && s == Program(img, addr, data[..n])
  }

  lemma {:induction false} StagesToAre(img: Image, addr: nat, data: seq<byte>, n: nat, k: nat)
    requires n <= |data| && k < |StagesTo(img, addr, data, n)|
    ensures IsStage(StagesTo(img, addr, data, n)[k], img, addr, data)
    decreases n
  {
    if k < |StagesTo(img, addr, data, n - 1)| {
      StagesToAre(img, addr, data, n - 1, k);
    } else if n == |data| {
      assert data[..n] == data;
    }
  }

  lemma StagesAre(img: Image, addr: nat, data: seq<byte>, k: nat)
    requires k < |Stages(img, addr, data)|
    ensures IsStage(Stages(img, addr, data)[k], img, addr, data)
  {
    var d, s := Landed(img, addr, data), Stages(img, addr, data)[k];
    StagesToAre(img, addr, d, |d|, k);
    assert Program(img, addr, d) == Program(img, addr, data);
    if s != Program(img, addr, d) {
      var n :| 0 < n < |d| && (addr + n) % 4 == 0 && s == Program(img, addr, d[..n]);
      assert d[..n] == data[..n];
    }
  }

  /** The image behind the first `n` octets of a write was recorded. */
  ghost predicate Recorded(before: seq<Image>, now: seq<Image>, img: Image, addr: nat, data: seq<byte>, n: nat)
    requires n <= |data|
  {
    exists k :: |before| <= k < |now| && now[k] == Program(img, addr, data[..n])
  }

  lemma {:induction false} StagesToHave(img: Image, addr: nat, data: seq<byte>, m: nat, n: nat) returns (k: nat)
    requires 0 < n <= m <= |data| && (n == |data| || (addr + n) % 4 == 0)
    ensures k < |StagesTo(img, addr, data, m)| && StagesTo(img, addr, data, m)[k] == Program(img, addr, data[..n])
    decreases m
  {
    if n < m {
      k := StagesToHave(img, addr, data, m - 1, n);
    } else {
      k := |StagesTo(img, addr, data, m - 1)|;
    }
  }

  /** No image behind a whole word, or at the end of a write, goes unrecorded. */
  lemma StagesComplete(before: seq<Image>, now: seq<Image>, img: Image, addr: nat, data: seq<byte>)
    requires now == before + Stages(img, addr, data)
    ensures forall n :: 0 < n <= |data| && addr + n <= |img| && ((addr + n) % 4 == 0 || n == |data|) ==>
              Recorded(before, now, img, addr, data, n)
  {
    hide Program;
    var d := Landed(img, addr, data);
    forall n | 0 < n <= |data| && addr + n <= |img| && ((addr + n) % 4 == 0 || n == |data|)
      ensures Recorded(before, now, img, addr, data, n)
    {
      var k := StagesToHave(img, addr, d, |d|, n);
      assert d[..n] == data[..n] && now[|before| + k] == Program(img, addr, data[..n]);
    }
  }

  /** The history only grew, by images of one write. */
  ghost predicate WrittenSince(before: seq<Image>, now: seq<Image>, img: Image, addr: nat, data: seq<byte>) {
    before <= now && forall k :: |before| <= k < |now| ==> IsStage(now[k], img, addr, data)
  }

  lemma StagesSince(before: seq<Image>, img: Image, addr: nat, data: seq<byte>)
    ensures WrittenSince(before, before + Stages(img, addr, data), img, addr, data)
  {
    var now := before + Stages(img, addr, data);
    forall k | |before| <= k < |now| ensures IsStage(now[k], img, addr, data) {
      StagesAre(img, addr, data, k - |before|);
    }
  }

  /** A write of one aligned word is done at once. */
  lemma OneWord(s: Image, img: Image, addr: nat, data: seq<byte>)
    requires IsStage(s, img, addr, data) && |data| == 4 && addr % 4 == 0
    ensures s == Program(img, addr, data)
  {
    NotMultiple(addr, 1);
    NotMultiple(addr, 2);
    NotMultiple(addr, 3);
  }

  lemma NotMultiple(a: nat, n: nat)
    requires a % 4 == 0 && 0 < n < 4
    ensures (a + n) % 4 != 0
  {}

  /** A write of two aligned words can be cut in one place. */
  lemma TwoWords(s: Image, img: Image, addr: nat, data: seq<byte>)
    requires IsStage(s, img, addr, data) && |data| == 8 && addr % 4 == 0
    ensures s == Program(img, addr, data) || s == Program(img, addr, data[..4])
  {
    if s != Program(img, addr, data) {
      var n :| 0 < n < |data| && (addr + n) % 4 == 0 && s == Program(img, addr, data[..n]);
      OnlyFour(addr, n);
    }
  }

  lemma OnlyFour(a: nat, n: nat)
    requires a % 4 == 0 && 0 < n < 8 && (a + n) % 4 == 0
    ensures n == 4
  {
    Multiples(a, n);
  }

  lemma Multiples(a: nat, n: nat)
    requires a % 4 == 0 && (a + n) % 4 == 0
    ensures n % 4 == 0
  {}

  /** No image of a write differs outside the written stretch. */
  lemma WrittenWithin(before: seq<Image>, now: seq<Image>, img: Image, addr: nat, data: seq<byte>, lo: int, hi: int)
    requires WrittenSince(before, now, img, addr, data) && lo <= addr && addr + |data| <= hi
    ensures ChangedWithin(before, now, img, lo, hi)
  {
    forall k | |before| <= k < |now| ensures SameOutside(now[k], img, lo, hi) {
      assert IsStage(now[k], img, addr, data);
    }
  }

  lemma ChangedTrans(a: seq<Image>, b: seq<Image>, c: seq<Image>, img: Image, lo: int, hi: int)
    requires ChangedWithin(a, b, img, lo, hi) && ChangedWithin(b, c, img, lo, hi)
    ensures ChangedWithin(a, c, img, lo, hi)
  {
    hide SameOutside;
    forall k | |a| <= k < |c| ensures SameOutside(c[k], img, lo, hi) {
      if k < |b| { assert c[k] == b[k]; }
    }
  }

  lemma ChangedJoin(a: seq<Image>, b: seq<Image>, c: seq<Image>, img: Image, mid: Image, lo: int, hi: int)
    requires ChangedWithin(a, b, img, lo, hi) && SameOutside(mid, img, lo, hi) && ChangedWithin(b, c, mid, lo, hi)
    ensures ChangedWithin(a, c, img, lo, hi)
  {
    forall k | |a| <= k < |c| ensures SameOutside(c[k], img, lo, hi) {
      if k < |b| { assert c[k] == b[k]; } else { assert SameOutside(c[k], mid, lo, hi); }
    }
  }
}
