/** The word-aligned fragment writer behind vectored settings, and exactly when it stores a concatenation. */
module VectorWrite {
  import opened Bytes
  import opened SettingsLog
  import opened FlashImage

  const WORD := 4

  function Min(a: nat, b: nat): nat { if a < b then a else b }

  /** Payload octets of `frag` that go into the first, possibly shared, word. */
  function HeadCount(addr: nat, frag: seq<byte>): nat { Min(WORD - addr % WORD, |frag|) }

  /** The first word as written: erased octets in front, payload, erased octets behind. */
  function HeadWord(addr: nat, frag: seq<byte>): (w: seq<byte>)
    ensures |w| == WORD
  {
    var pad, n := addr % WORD, HeadCount(addr, frag);
    Fill(pad) + frag[..n] + Fill(WORD - pad - n)
  }

  /** The image after the two writes that store one fragment. */
  function StoreFragment(img: Image, addr: nat, frag: seq<byte>): Image {
    var base := addr - addr % WORD;
    Program(Program(img, base, HeadWord(addr, frag)), base + WORD, frag[HeadCount(addr, frag)..])
  }

  /** Where the writer stands after one fragment. */
  function Next(addr: nat, frag: seq<byte>): nat {
    addr - addr % WORD + WORD + |frag| - HeadCount(addr, frag)
  }

  function StoreAll(img: Image, addr: nat, frags: seq<seq<byte>>): Image
    decreases |frags|
  {
    if frags == [] then img else StoreAll(StoreFragment(img, addr, frags[0]), Next(addr, frags[0]), frags[1..])
  }

  function Concat(frags: seq<seq<byte>>): seq<byte> {
    if frags == [] then [] else frags[0] + Concat(frags[1..])
  }

  predicate AllEmpty(frags: seq<seq<byte>>) { forall i :: 0 <= i < |frags| ==> frags[i] == [] }

  /** Every fragment with payload still to come behind it reaches the next word boundary. */
  predicate Reaches(addr: nat, frags: seq<seq<byte>>)
    decreases |frags|
  {
    frags == [] ||
    ((AllEmpty(frags[1..]) || addr % WORD + |frags[0]| >= WORD) && Reaches(Next(addr, frags[0]), frags[1..]))
  }

  lemma HeadIsHarmless(img: Image, addr: nat, frag: seq<byte>)
    ensures Program(img, addr - addr % WORD, HeadWord(addr, frag)) == Program(img, addr, frag[..HeadCount(addr, frag)])
  {
    var base, w, n := addr - addr % WORD, HeadWord(addr, frag), HeadCount(addr, frag);
    var l, r := Program(img, base, w), Program(img, addr, frag[..n]);
    forall i | 0 <= i < |img| ensures l[i] == r[i] {
      AndOnes(img[i]);
      if base <= i < addr || addr + n <= i < base + WORD {
        assert w[i - base] == 0xFF;
      }
    }
  }

  /** A fragment is stored where the writer stands, and nothing else changes, wherever in a word it starts. */
  lemma StoreIsProgram(img: Image, addr: nat, frag: seq<byte>)
    ensures StoreFragment(img, addr, frag) == Program(img, addr, frag)
  {
    var n := HeadCount(addr, frag);
    HeadIsHarmless(img, addr, frag);
    if n == |frag| {
      assert frag[n..] == [] && frag[..n] == frag;
      ProgramNothing(Program(img, addr, frag), addr - addr % WORD + WORD);
    } else {
      ProgramJoin(img, addr, frag[..n], frag[n..]);
      assert frag[..n] + frag[n..] == frag;
    }
  }

  lemma {:induction false} StoreEmpties(img: Image, addr: nat, frags: seq<seq<byte>>)
    requires AllEmpty(frags)
    ensures StoreAll(img, addr, frags) == img && Concat(frags) == []
    decreases |frags|
  {
    if frags != [] {
      StoreIsProgram(img, addr, frags[0]);
      ProgramNothing(img, addr);
      StoreEmpties(img, Next(addr, frags[0]), frags[1..]);
    }
  }

  /** If the fragments reach, the vector is stored as one contiguous write of its concatenation. */
  lemma {:induction false} ReachingIsConcat(img: Image, addr: nat, frags: seq<seq<byte>>)
    requires Reaches(addr, frags)
    ensures StoreAll(img, addr, frags) == Program(img, addr, Concat(frags))
    decreases |frags|
  {
    if frags == [] {
      ProgramNothing(img, addr);
    } else {
      var f := frags[0];
      StoreIsProgram(img, addr, f);
      if AllEmpty(frags[1..]) {
        StoreEmpties(Program(img, addr, f), Next(addr, f), frags[1..]);
        assert f + [] == f;
      } else {
        ReachingIsConcat(Program(img, addr, f), addr + |f|, frags[1..]);
        ProgramJoin(img, addr, f, Concat(frags[1..]));
      }
    }
  }

  predicate Zeros(frags: seq<seq<byte>>) {
    forall i, k :: 0 <= i < |frags| && 0 <= k < |frags[i]| ==> frags[i][k] == 0
  }

  /** Cells before the writer's position keep what they hold. */
  lemma {:induction false} StoreAllBefore(img: Image, addr: nat, frags: seq<seq<byte>>, i: nat)
    requires i < addr && i < |img|
    ensures |StoreAll(img, addr, frags)| == |img| && StoreAll(img, addr, frags)[i] == img[i]
    decreases |frags|
  {
    if frags != [] {
      StoreIsProgram(img, addr, frags[0]);
      StoreAllBefore(Program(img, addr, frags[0]), Next(addr, frags[0]), frags[1..], i);
    }
  }

  lemma {:induction false} ConcatZeros(frags: seq<seq<byte>>)
    requires Zeros(frags)
    ensures forall k :: 0 <= k < |Concat(frags)| ==> Concat(frags)[k] == 0
    ensures !AllEmpty(frags) ==> Concat(frags) != []
    decreases |frags|
  {
    if frags != [] {
      ZerosTail(frags);
      ConcatZeros(frags[1..]);
      if AllEmpty(frags[1..]) && frags[0] == [] {
        assert AllEmpty(frags);
      }
    }
  }

  /** If they do not reach, an all-zero payload of these lengths is torn apart: the condition is exact. */
  lemma {:induction false} NotReachingTears(img: Image, addr: nat, frags: seq<seq<byte>>)
    requires !Reaches(addr, frags) && Zeros(frags)
    requires addr + |Concat(frags)| <= |img| && Erased(img, addr, addr + |Concat(frags)|)
    ensures StoreAll(img, addr, frags) != Program(img, addr, Concat(frags))
    decreases |frags|
  {
    var f, rest, c := frags[0], frags[1..], Concat(frags);
    ConcatZeros(frags);
    ZerosTail(frags);
    StoreIsProgram(img, addr, f);
    var one := Program(img, addr, f);
    if AllEmpty(rest) || addr % WORD + |f| >= WORD {
      if AllEmpty(rest) {
        EmptyReaches(Next(addr, f), rest);
      }
      NotReachingTears(one, addr + |f|, rest);
      ProgramJoin(img, addr, f, Concat(rest));
    } else {
      ConcatZeros(rest);
      HoleLeft(img, addr, frags);
      assert c[|f|] == 0;
    }
  }

  /** A first fragment that ends inside its first word leaves an erased cell behind itself. */
  lemma HoleLeft(img: Image, addr: nat, frags: seq<seq<byte>>)
    requires frags != [] && addr % WORD + |frags[0]| < WORD
    requires addr + |frags[0]| < |img| && img[addr + |frags[0]|] == 0xFF
    ensures |StoreAll(img, addr, frags)| == |img| && StoreAll(img, addr, frags)[addr + |frags[0]|] == 0xFF
  {
    StoreIsProgram(img, addr, frags[0]);
    StoreAllBefore(Program(img, addr, frags[0]), Next(addr, frags[0]), frags[1..], addr + |frags[0]|);
  }

  lemma {:induction false} EmptyReaches(addr: nat, frags: seq<seq<byte>>)
    requires AllEmpty(frags)
    ensures Reaches(addr, frags)
    decreases |frags|
  {
    if frags != [] { EmptyReaches(Next(addr, frags[0]), frags[1..]); }
  }

  /* ---- how far the writer gets ---- */

  /** The end of the stretch the writer changes: where its last non-empty fragment ends. */
  function Stop(addr: nat, frags: seq<seq<byte>>): nat
    decreases |frags|
  {
    if AllEmpty(frags) then addr
    else if AllEmpty(frags[1..]) then addr + |frags[0]|
    else Stop(Next(addr, frags[0]), frags[1..])
  }

  lemma {:induction false} StopBound(addr: nat, frags: seq<seq<byte>>)
    ensures addr + |Concat(frags)| <= Stop(addr, frags)
    decreases |frags|
  {
    if AllEmpty(frags) {
      EmptyConcat(frags);
    } else {
      if AllEmpty(frags[1..]) { EmptyConcat(frags[1..]); }
      StopBound(Next(addr, frags[0]), frags[1..]);
    }
  }

  lemma {:induction false} EmptyConcat(frags: seq<seq<byte>>)
    requires AllEmpty(frags)
    ensures Concat(frags) == []
    decreases |frags|
  {
    if frags != [] { EmptyConcat(frags[1..]); }
  }

  /** Fragments that reach stop right behind their concatenation. */
  lemma {:induction false} ReachingStop(addr: nat, frags: seq<seq<byte>>)
    requires Reaches(addr, frags)
    ensures Stop(addr, frags) == addr + |Concat(frags)|
    decreases |frags|
  {
    if AllEmpty(frags) {
      EmptyConcat(frags);
    } else if AllEmpty(frags[1..]) {
      EmptyConcat(frags[1..]);
    } else {
      ReachingStop(Next(addr, frags[0]), frags[1..]);
    }
  }

  /** Nothing changes outside the stretch. */
  lemma {:induction false} StoreWithin(img: Image, addr: nat, frags: seq<seq<byte>>)
    ensures SameOutside(StoreAll(img, addr, frags), img, addr, Stop(addr, frags))
    decreases |frags|
  {
    if AllEmpty(frags) {
      StoreEmpties(img, addr, frags);
    } else {
      var one := Program(img, addr, frags[0]);
      StoreIsProgram(img, addr, frags[0]);
      if AllEmpty(frags[1..]) {
        StoreEmpties(one, Next(addr, frags[0]), frags[1..]);
      } else {
        StoreWithin(one, Next(addr, frags[0]), frags[1..]);
        StopBound(Next(addr, frags[0]), frags[1..]);
      }
    }
  }

  /** And the stretch is changed up to its last cell: an all-zero payload clears it. */
  lemma {:induction false} StopReached(img: Image, addr: nat, frags: seq<seq<byte>>)
    requires Zeros(frags) && !AllEmpty(frags) && Stop(addr, frags) <= |img|
    ensures addr < Stop(addr, frags) && |StoreAll(img, addr, frags)| == |img|
    ensures StoreAll(img, addr, frags)[Stop(addr, frags) - 1] == 0
    decreases |frags|
  {
    var one := Program(img, addr, frags[0]);
    StoreIsProgram(img, addr, frags[0]);
    if AllEmpty(frags[1..]) {
      StoreEmpties(one, Next(addr, frags[0]), frags[1..]);
      assert frags[0] != [];
      assert one[addr + |frags[0]| - 1] == And(img[addr + |frags[0]| - 1], frags[0][|frags[0]| - 1]);
    } else {
      assert Zeros(frags[1..]) by { ZerosTail(frags); }
      StopReached(one, Next(addr, frags[0]), frags[1..]);
    }
  }

  lemma ZerosTail(frags: seq<seq<byte>>)
    requires Zeros(frags) && frags != []
    ensures Zeros(frags[1..])
  {
    forall i, k | 0 <= i < |frags[1..]| && 0 <= k < |frags[1..][i]| ensures frags[1..][i][k] == 0 {
      assert frags[1..][i] == frags[i + 1];
    }
  }

  /** The writer's place in a word is all that matters of its address. */
  lemma {:induction false} StoreWindow(img: Image, a: nat, n: nat, o: nat, frags: seq<seq<byte>>)
    requires a % WORD == 0 && a + n <= |img|
    ensures |StoreAll(img, a + o, frags)| == |img|
    ensures StoreAll(img, a + o, frags)[a..a + n] == StoreAll(img[a..a + n], o, frags)
    decreases |frags|
  {
    hide StoreFragment, Next, Program;
    if frags != [] {
      var f := frags[0];
      StoreIsProgram(img, a + o, f);
      StoreIsProgram(img[a..a + n], o, f);
      ProgramWindow(img, a, n, o, f);
      NextShift(a, o, f);
      StoreWindow(Program(img, a + o, f), a, n, Next(o, f), frags[1..]);
    }
  }

  lemma ProgramWindow(img: Image, a: nat, n: nat, o: nat, data: seq<byte>)
    requires a + n <= |img|
    ensures Program(img, a + o, data)[a..a + n] == Program(img[a..a + n], o, data)
  {}

  lemma NextShift(a: nat, o: nat, f: seq<byte>)
    requires a % WORD == 0
    ensures Next(a + o, f) == a + Next(o, f)
  {
    assert (a + o) % WORD == o % WORD;
  }

  lemma {:induction false} StopShift(a: nat, o: nat, frags: seq<seq<byte>>)
    requires a % WORD == 0
    ensures Stop(a + o, frags) == a + Stop(o, frags)
    decreases |frags|
  {
    if !AllEmpty(frags) && !AllEmpty(frags[1..]) {
      NextShift(a, o, frags[0]);
      StopShift(a, Next(o, frags[0]), frags[1..]);
    }
  }

  /** What is left to write from `addr` on lies inside [lo, hi), if anything is left. */
  predicate Within(addr: nat, frags: seq<seq<byte>>, lo: nat, hi: nat) {
    lo <= addr && (AllEmpty(frags) || Stop(addr, frags) == hi)
  }

  lemma WithinStep(addr: nat, frags: seq<seq<byte>>, i: nat, lo: nat, hi: nat)
    requires i < |frags| && Within(addr, frags[i..], lo, hi)
    ensures Within(Next(addr, frags[i]), frags[i + 1..], lo, hi)
    ensures frags[i] == [] || lo <= addr <= addr + |frags[i]| <= hi
  {
    var f := frags[i..];
    assert f[0] == frags[i] && f[1..] == frags[i + 1..];
    if AllEmpty(f) {
      assert forall k :: 0 <= k < |f[1..]| ==> f[1..][k] == f[k + 1];
    } else if !AllEmpty(f[1..]) {
      StopBound(Next(addr, f[0]), f[1..]);
    }
  }

  lemma StoreAllStep(img: Image, addr: nat, frags: seq<seq<byte>>, i: nat)
    requires i < |frags|
    ensures StoreAll(StoreFragment(img, addr, frags[i]), Next(addr, frags[i]), frags[i + 1..]) == StoreAll(img, addr, frags[i..])
  {
    assert frags[i..][1..] == frags[i + 1..];
  }

  /** Both writes of one fragment change nothing outside the fragment's own place. */
  lemma StoreOutside(img: Image, addr: nat, frag: seq<byte>)
    ensures var base := addr - addr % WORD;
            && SameOutside(Program(img, base, HeadWord(addr, frag)), img, addr, addr + |frag|)
            && SameOutside(StoreFragment(img, addr, frag), img, addr, addr + |frag|)
  {
    HeadIsHarmless(img, addr, frag);
    StoreIsProgram(img, addr, frag);
  }

  /** All images on the way through one fragment. */
  lemma FragmentHistory(img: Image, mid: Image, addr: nat, frag: seq<byte>, h0: seq<Image>, h1: seq<Image>, h2: seq<Image>)
    requires var base := addr - addr % WORD;
             && mid == Program(img, base, HeadWord(addr, frag)) && WrittenSince(h0, h1, img, base, HeadWord(addr, frag))
             && WrittenSince(h1, h2, mid, base + WORD, frag[HeadCount(addr, frag)..])
    ensures ChangedWithin(h0, h2, img, addr, addr + |frag|)
  {
    hide WrittenSince, ChangedWithin, Program, HeadWord, SameOutside;
    StoreOutside(img, addr, frag);
    HeadHistory(img, addr, frag, h0, h1);
    RestHistory(mid, addr, frag, h1, h2);
    ChangedJoin(h0, h1, h2, img, mid, addr, addr + |frag|);
  }

  lemma HeadHistory(img: Image, addr: nat, frag: seq<byte>, h0: seq<Image>, h1: seq<Image>)
    requires WrittenSince(h0, h1, img, addr - addr % WORD, HeadWord(addr, frag))
    ensures ChangedWithin(h0, h1, img, addr, addr + |frag|)
  {
    hide IsStage, Program, HeadWord, SameOutside;
    var base := addr - addr % WORD;
    StoreOutside(img, addr, frag);
    forall k | |h0| <= k < |h1| ensures SameOutside(h1[k], img, addr, addr + |frag|) {
      OneWord(h1[k], img, base, HeadWord(addr, frag));
    }
  }

  lemma NothingWritten(s: Image, img: Image, addr: nat)
    requires IsStage(s, img, addr, [])
    ensures s == img
  {
    ProgramNothing(img, addr);
  }

  lemma RestHistory(mid: Image, addr: nat, frag: seq<byte>, h1: seq<Image>, h2: seq<Image>)
    requires WrittenSince(h1, h2, mid, addr - addr % WORD + WORD, frag[HeadCount(addr, frag)..])
    ensures ChangedWithin(h1, h2, mid, addr, addr + |frag|)
  {
    hide Program, IsStage;
    var base, n := addr - addr % WORD, HeadCount(addr, frag);
    if n == |frag| {
      forall k | |h1| <= k < |h2| ensures SameOutside(h2[k], mid, addr, addr + |frag|) {
        assert frag[n..] == [];
        NothingWritten(h2[k], mid, base + WORD);
      }
    } else {
      assert addr <= base + WORD && base + WORD + |frag[n..]| == addr + |frag|;
      WrittenWithin(h1, h2, mid, base + WORD, frag[n..], addr, addr + |frag|);
    }
  }

  lemma FragmentsStep(h0: seq<Image>, h1: seq<Image>, h2: seq<Image>, img: Image, now: Image, next: Image,
                      at: nat, n: nat, lo: nat, hi: nat)
    requires ChangedWithin(h0, h1, img, lo, hi) && SameOutside(now, img, lo, hi)
    requires ChangedWithin(h1, h2, now, at, at + n) && SameOutside(next, now, at, at + n)
    requires n == 0 || lo <= at <= at + n <= hi
    ensures ChangedWithin(h0, h2, img, lo, hi) && SameOutside(next, img, lo, hi)
  {
    forall k | |h1| <= k < |h2| ensures SameOutside(h2[k], now, lo, hi) {
      assert SameOutside(h2[k], now, at, at + n);
    }
    ChangedJoin(h0, h1, h2, img, now, lo, hi);
  }

  function SumLengths(frags: seq<seq<byte>>, n: nat): nat
    requires n <= |frags|
  {
    if n == 0 then 0 else SumLengths(frags, n - 1) + |frags[n - 1]|
  }

  lemma {:induction false} SumIsConcat(frags: seq<seq<byte>>, n: nat)
    requires n <= |frags|
    ensures SumLengths(frags, |frags|) == SumLengths(frags, n) + |Concat(frags[n..])|
    decreases |frags| - n
  {
    if n < |frags| {
      SumIsConcat(frags, n + 1);
      assert frags[n..][1..] == frags[n + 1..];
    }
  }
}
