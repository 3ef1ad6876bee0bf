/** Image-level steps of the settings store's methods. */
module StoreImages {
  import opened Bytes
  import opened SettingsLog
  import opened SettingsView
  import opened Compaction
  import opened SettingsRuns
  import opened FlashImage
  import opened VectorWrite
  import opened BootImage

  /* ---- formatting an area ---- */

  lemma {:induction false} PageStep(a: nat, end: nat, page: nat)
    requires page > 0 && OnPage(a, page) && OnPage(end, page) && a < end
    ensures a + page <= end && OnPage(a + page, page)
  {
    if a > 0 { PageStep(a - page, end - page, page); }
  }

  lemma WipedJoin(img: Image, lo: nat, mid: nat, hi: nat)
    requires lo <= mid <= hi
    ensures Wiped(Wiped(img, lo, mid), mid, hi) == Wiped(img, lo, hi)
  {}

  lemma WipedNothing(img: Image, lo: nat)
    ensures Wiped(img, lo, lo) == img
  {}

  lemma WipedNotInUse(img: Image, addr: nat, hi: nat)
    requires addr < hi
    ensures !At(Wiped(img, addr, hi), addr, IN_USE)
  {
    var w := Wiped(img, addr, hi);
    assert addr + 4 <= |img| ==> w[addr..addr + 4][0] == 0xFF != IN_USE[0];
  }

  /** The area at `addr` is being reformatted: it does not look in use, and the rest of the device is untouched. */
  ghost predicate Clearing(s: Image, img: Image, addr: nat, size: nat) {
    SameOutside(s, img, addr, addr + size) && !At(s, addr, IN_USE)
  }

  /** The history only grew, by images of an area being reformatted. */
  ghost predicate ClearingSince(before: seq<Image>, now: seq<Image>, img: Image, addr: nat, size: nat) {
    before <= now && forall k :: |before| <= k < |now| ==> Clearing(now[k], img, addr, size)
  }

  ghost predicate Formatted(s: Image, img: Image, addr: nat, size: nat, word: seq<byte>) {
    At(s, addr, word) && Erased(s, addr + FLAG_SIZE, addr + size) && SameOutside(s, img, addr, addr + size)
  }

  lemma ErasePageStep(img: Image, addr: nat, size: nat, address: nat, page: nat)
    requires page > 0 && OnPage(addr + size, page) && OnPage(address, page) && addr <= address < addr + size
    ensures OnPage(address + page, page) && address + page <= addr + size
    ensures var w := Wiped(Wiped(img, addr, address), address, address + page);
            w == Wiped(img, addr, address + page) && Clearing(w, img, addr, size)
  {
    PageStep(address, addr + size, page);
    WipedJoin(img, addr, address, address + page);
    WipedNotInUse(img, addr, address + page);
  }

  lemma {:induction false} OnPageSum(a: nat, b: nat, page: nat)
    requires page > 0 && OnPage(a, page) && OnPage(b, page)
    ensures OnPage(a + b, page)
  {
    if a > 0 { OnPageSum(a - page, b, page); }
  }

  lemma StampArea(img: Image, addr: nat, size: nat, word: seq<byte>)
    requires addr + size <= |img| && FLAG_SIZE <= size && |word| == FLAG_SIZE
    ensures var s := Program(Wiped(img, addr, addr + size), addr, word);
            && Formatted(s, img, addr, size, word)
            && (word != IN_USE ==> Clearing(s, img, addr, size))
  {
    ProgramErased(Wiped(img, addr, addr + size), addr, word);
  }

  lemma StampHistory(h0: seq<Image>, h1: seq<Image>, h2: seq<Image>, img: Image, wiped: Image, addr: nat, size: nat, word: seq<byte>)
    requires ClearingSince(h0, h1, img, addr, size) && WrittenSince(h1, h2, wiped, addr, word) && wiped == Wiped(img, addr, addr + size)
    requires addr + size <= |img| && FLAG_SIZE <= size && |word| == FLAG_SIZE && addr % 4 == 0 && word != IN_USE
    ensures ClearingSince(h0, h2, img, addr, size)
  {
    hide Wiped, Program, IsStage;
    StampArea(img, addr, size, word);
    forall k | |h0| <= k < |h2| ensures Clearing(h2[k], img, addr, size) {
      if k < |h1| {
        assert h2[k] == h1[k];
      } else {
        OneWord(h2[k], wiped, addr, word);
      }
    }
  }

  /* ---- reading headers ---- */

  /** The packed header structure as the code reads it into memory. */
  datatype Block = Block(key: u16, flag: byte, flagHi: byte, len: u16, reserved: u16) {
    predicate Begun() { !Bit(flag, ADD_BEGIN) }
    predicate Index0() { !Bit(flag, INDEX0) }
    predicate Live() { !Bit(flag, ADD_COMPLETE) && Bit(flag, DELETED) }
    function Bytes(): (h: seq<byte>) ensures |h| == HEADER {
      [key % 256, key / 256, flag, flagHi, len % 256, len / 256, reserved % 256, reserved / 256]
    }
  }

  function Parse(h: seq<byte>): Block
    requires |h| == HEADER
  {
    Block(h[0] as int + 256 * h[1] as int, h[2], h[3], h[4] as int + 256 * h[5] as int, h[6] as int + 256 * h[7] as int)
  }

  /** The structure in memory is the header of `r`. */
  predicate Describes(block: Block, r: Rec) {
    && block.key == r.key && block.len == r.len && block.Bytes() == r.Header()
    && block.flag == r.flags.Octet()
    && (block.Begun() <==> r.flags.begun) && (block.Index0() <==> r.Index0()) && (block.Live() <==> r.Live())
  }

  lemma ParseDescribes(h: seq<byte>, r: Rec)
    requires h == r.Header()
    ensures Describes(Parse(h), r)
  {
    OctetBits(r.flags);
  }

  function Position(b: nat, log: Log, i: nat): nat
    requires i <= |log|
  {
    b + FLAG_SIZE + Off(log, i)
  }

  /** The scan step: the header at record `i` describes it and leads to record `i + 1`. */
  lemma BlockAt(img: Image, b: nat, log: Log, i: nat)
    requires RecordsAt(img, b, log) && AllWf(log) && i < |log|
    ensures var p := Position(b, log, i);
            && p + HEADER + |log[i].body| <= |img|
            && Describes(Parse(img[p..p + HEADER]), log[i])
            && img[p + HEADER..p + HEADER + |log[i].body|] == log[i].body
            && Position(b, log, i + 1) == p + HEADER + AlignLength(log[i].len)
            && (Position(b, log, i + 1) < Position(b, log, |log|) <==> i + 1 < |log|)
  {
    var p := Position(b, log, i);
    assert RecordAt(img, b, log, i) && log[i].Wf();
    var s := img[p..p + log[i].Size()];
    assert s[..HEADER] == log[i].Header() && s[HEADER..] == log[i].body;
    assert img[p..p + HEADER] == s[..HEADER];
    ParseDescribes(img[p..p + HEADER], log[i]);
    OffMono(log, i, |log|);
    if i + 1 < |log| { OffMono(log, i + 1, |log|); }
  }

  /** A scan is at the end of the log exactly when it reaches the used cursor. */
  lemma ScanStart(b: nat, log: Log)
    ensures Position(b, log, 0) < Position(b, log, |log|) <==> 0 < |log|
  {
    if |log| > 0 { OffMono(log, 0, |log|); }
  }

  lemma PayloadStored(img: Image, b: nat, log: Log, i: nat)
    requires RecordsAt(img, b, log) && AllWf(log) && i < |log| && log[i].Live()
    ensures log[i].len == |log[i].Value()| && At(img, Position(b, log, i) + HEADER, log[i].Value())
  {
    var p := Position(b, log, i) + HEADER;
    BlockAt(img, b, log, i);
    assert log[i].Wf();
    assert img[p..p + log[i].len] == img[p..p + |log[i].body|][..log[i].len];
  }

  /* ---- rewriting one header ---- */

  /** Writing `b` over `a` leaves `b` when `b` only clears bits of `a`. */
  predicate Clears(a: seq<byte>, b: seq<byte>) {
    |a| == |b| && forall k :: 0 <= k < |a| ==> And(a[k], b[k]) == b[k]
  }

  lemma ProgramClears(img: Image, p: nat, a: seq<byte>, b: seq<byte>)
    requires At(img, p, a) && Clears(a, b)
    ensures At(Program(img, p, b), p, b)
  {
    var r := Program(img, p, b);
    assert forall k :: 0 <= k < |a| ==> img[p..p + |a|][k] == a[k];
    assert r[p..p + |b|] == b;
  }

  /** Raising flags clears header bits only. */
  lemma RaisingClears(r: Rec, complete: bool, deleted: bool, index0: bool)
    ensures var f := r.flags.(complete := r.flags.complete || complete, deleted := r.flags.deleted || deleted,
                              index0 := r.flags.index0 || index0);
            Clears(r.Header(), r.(flags := f).Header())
            && f.Octet() == And(r.flags.Octet(), Flags(false, complete, deleted, index0, 15).Octet())
  {
    var m := Flags(false, complete, deleted, index0, 15).Octet();
    var h := r.Header();
    OctetClear(r.flags, complete, deleted, index0);
    AndAbsorb(r.flags.Octet(), m);
    forall k | 0 <= k < |h| ensures And(h[k], h[k]) == h[k] {
      AndSelf(h[k]);
    }
  }

  lemma MaskOctets()
    ensures Flags(false, true, false, false, 15).Octet() == 0xFD
    ensures Flags(false, false, true, false, 15).Octet() == 0xFB
    ensures Flags(false, false, false, true, 15).Octet() == 0xF7
  {}

  lemma OffsSame(a: Log, b: Log)
    requires |a| == |b| && forall k :: 0 <= k < |a| ==> a[k].Size() == b[k].Size()
    ensures forall k :: 0 <= k <= |a| ==> Off(b, k) == Off(a, k)
  {
    forall k | 0 <= k <= |a| ensures Off(b, k) == Off(a, k) { OffSame(a, b, k); }
  }

  lemma HeaderStored(img: Image, b: nat, log: Log, i: nat)
    requires RecordsAt(img, b, log) && i < |log|
    ensures At(img, Position(b, log, i), log[i].Header())
  {
    var p := Position(b, log, i);
    assert RecordAt(img, b, log, i);
    assert img[p..p + HEADER] == img[p..p + log[i].Size()][..HEADER] == log[i].Header();
  }

  lemma AreaRewrite(img: Image, b: nat, size: nat, w: seq<byte>, log: Log, i: nat, r: Rec)
    requires Area(img, b, size, w, log) && i < |log| && |w| == FLAG_SIZE
    requires r == log[i].(flags := r.flags) && r.flags.begun && (r.flags.complete ==> log[i].flags.complete)
    requires Clears(log[i].Header(), r.Header())
    ensures Area(Program(img, Position(b, log, i), r.Header()), b, size, w, log[i := r])
  {
    var p := Position(b, log, i);
    HeaderStored(img, b, log, i);
    assert log[i].Wf();
    ProgramClears(img, p, log[i].Header(), r.Header());
    AreaUpdate(img, Program(img, p, r.Header()), b, size, w, log, i, r);
  }

  /** One header rewrite: the area's log changes in that record's flags only, and the device still boots into it. */
  lemma RewriteHeader(img: Image, size: nat, b: nat, log: Log, i: nat, r: Rec)
    requires Boots(img, size, b, log) && i < |log|
    requires r == log[i].(flags := r.flags) && r.flags.begun && (r.flags.complete ==> log[i].flags.complete)
    requires Clears(log[i].Header(), r.Header())
    ensures Program(img, Position(b, log, i), r.Header()[..4]) == Program(img, Position(b, log, i), r.Header())
    ensures Boots(Program(img, Position(b, log, i), r.Header()), size, b, log[i := r])
    ensures End(log[i := r]) == End(log)
  {
    var p := Position(b, log, i);
    AreaRewrite(img, b, size, IN_USE, log, i, r);
    HeaderStored(img, b, log, i);
    SecondWordStays(img, p, log[i].Header(), r.Header());
    OtherFlag(img, Program(img, p, r.Header()), size, p, p + HEADER);
    OffSame(log, log[i := r], |log|);
  }

  /** And all its images boot into the changed log. */
  lemma RewriteHistory(img: Image, size: nat, b: nat, log: Log, i: nat, r: Rec, h0: seq<Image>, h1: seq<Image>)
    requires Boots(img, size, b, log) && i < |log| && size % 4 == 0
    requires r == log[i].(flags := r.flags) && r.flags.begun && (r.flags.complete ==> log[i].flags.complete)
    requires Clears(log[i].Header(), r.Header())
    requires WrittenSince(h0, h1, img, Position(b, log, i), r.Header())
    ensures BootingSince(h0, h1, size, b, log[i := r])
  {
    hide Boots, IsStage, Program, Clears;
    BootsLog(img, size, b, log);
    OffAligned(log, i);
    RewriteHeader(img, size, b, log, i, r);
    forall k | |h0| <= k < |h1| ensures Boots(h1[k], size, b, log[i := r]) {
      TwoWords(h1[k], img, Position(b, log, i), r.Header());
    }
  }

  /** The log `now` in the middle of a delete: the first `i` records of `l` are done. */
  ghost predicate Partly(l: Log, now: Log, i: nat, key: u16, index: int) {
    |now| == |l| && forall j :: 0 <= j < |l| ==> now[j] == if j < i then AfterDelete(l, j, key, index) else l[j]
  }

  lemma PartlyStep(l: Log, now: Log, i: nat, key: u16, index: int, r: Rec)
    requires i < |l| && Partly(l, now, i, key, index) && r == AfterDelete(l, i, key, index)
    ensures Partly(l, now[i := r], i + 1, key, index)
  {}

  lemma PartlyDone(l: Log, now: Log, key: u16, index: int)
    requires Partly(l, now, |l|, key, index)
    ensures now == Delete(l, key, index)
  {}

  /** What a visit to a live record with running index `idx` makes of it. */
  function Visited(r: Rec, idx: nat, index: int): Rec {
    var r1 := if index == idx || index == ALL then DeletedRec(r) else r;
    if idx == 1 && index == 0 then PromotedRec(r1) else r1
  }

  /* ---- appending a record ---- */

  /** The record `r` cut off before completion, with whatever payload cells got written. */
  function Interrupted(r: Rec, body: seq<byte>): Rec {
    r.(flags := r.flags.(complete := false), body := body)
  }

  /** The record `r` cut off behind the first word of its header: its length, read from erased cells, pads to nothing. */
  function Torn(r: Rec): Rec {
    Rec(r.key, r.flags.(complete := false), r.flagHi, 0xFFFF, 0xFFFF, [])
  }

  /** The device boots into `log` followed by an interrupted `r`. */
  ghost predicate Midway(s: Image, size: nat, b: nat, log: Log, r: Rec) {
    exists body :: |body| == |r.body| && Boots(s, size, b, log + [Interrupted(r, body)])
  }

  /** What a power cut while `r` is appended to `log` can leave. */
  ghost predicate AppendStage(s: Image, size: nat, b: nat, log: Log, r: Rec) {
    || Boots(s, size, b, log + [Torn(r)])
    || Midway(s, size, b, log, r)
    || Boots(s, size, b, log + [r])
  }

  lemma AppendBoots(img: Image, s: Image, size: nat, b: nat, log: Log, r: Rec)
    requires Boots(img, size, b, log) && r.Wf() && End(log) + r.Size() <= size
    requires SameOutside(s, img, b + End(log), b + End(log) + r.Size()) && At(s, b + End(log), r.Bytes())
    ensures Boots(s, size, b, log + [r])
  {
    AreaAppend(img, s, b, size, IN_USE, log, r);
    OtherFlag(img, s, size, b + End(log), b + End(log) + r.Size());
  }

  lemma MidwayBoots(img: Image, s: Image, size: nat, b: nat, log: Log, r: Rec)
    requires Boots(img, size, b, log) && r.Wf() && End(log) + r.Size() <= size
    requires SameOutside(s, img, b + End(log), b + End(log) + r.Size())
    requires At(s, b + End(log), Interrupted(r, r.body).Header())
    ensures Midway(s, size, b, log, r)
  {
    var p := b + End(log);
    var body := s[p + HEADER..p + r.Size()];
    var q := Interrupted(r, body);
    assert s[p..p + q.Size()] == s[p..p + HEADER] + body;
    assert q.Header() == Interrupted(r, r.body).Header();
    AppendBoots(img, s, size, b, log, q);
  }

  lemma BootsRoom(img: Image, size: nat, b: nat, log: Log, n: nat)
    requires Boots(img, size, b, log) && End(log) + n <= size
    ensures b + End(log) + n <= |img| && Erased(img, b + End(log), b + End(log) + n)
  {}

  /** Only the first word of the header is written. */
  lemma TornBoots(img: Image, size: nat, b: nat, log: Log, r: Rec)
    requires Boots(img, size, b, log) && r.Wf() && End(log) + r.Size() <= size
    ensures Boots(Program(img, b + End(log), Interrupted(r, r.body).Header()[..4]), size, b, log + [Torn(r)])
  {
    hide Boots, Area;
    var p, h := b + End(log), Interrupted(r, r.body).Header();
    BootsRoom(img, size, b, log, HEADER);
    TornHeader(img, p, r);
    AppendBoots(img, Program(img, p, h[..4]), size, b, log, Torn(r));
  }

  lemma TornHeader(img: Image, p: nat, r: Rec)
    requires p + HEADER <= |img| && Erased(img, p, p + HEADER) && r.Wf()
    ensures var s := Program(img, p, Interrupted(r, r.body).Header()[..4]);
            At(s, p, Torn(r).Bytes()) && SameOutside(s, img, p, p + HEADER) && Torn(r).Wf() && Torn(r).Size() == HEADER
  {
    var h := Interrupted(r, r.body).Header();
    var s := Program(img, p, h[..4]);
    ProgramErased(img, p, h[..4]);
    assert s[p..p + HEADER] == s[p..p + 4] + s[p + 4..p + HEADER];
    assert s[p + 4..p + HEADER] == [0xFF, 0xFF, 0xFF, 0xFF];
    assert Torn(r).Bytes() == h[..4] + [0xFF, 0xFF, 0xFF, 0xFF];
  }

  /** The header written over erased cells. */
  lemma HeaderFirst(img: Image, size: nat, b: nat, log: Log, r: Rec)
    requires Boots(img, size, b, log) && r.Wf() && End(log) + r.Size() <= size
    ensures var p, h := b + End(log), Interrupted(r, r.body).Header();
            var s := Program(img, p, h);
            && p + r.Size() <= |img| && Erased(img, p + HEADER, p + r.Size())
            && At(s, p, h) && SameOutside(s, img, p, p + HEADER) && Erased(s, p + HEADER, p + r.Size())
  {
    BootsRoom(img, size, b, log, r.Size());
    ProgramErased(img, b + End(log), Interrupted(r, r.body).Header());
  }

  /** Payload writes keep the unfinished header, so every image on the way is an interrupted append. */
  lemma PayloadMidway(img: Image, head: Image, s: Image, size: nat, b: nat, log: Log, r: Rec)
    requires Boots(img, size, b, log) && r.Wf() && End(log) + r.Size() <= size
    requires var p, h := b + End(log), Interrupted(r, r.body).Header();
             At(head, p, h) && SameOutside(head, img, p, p + HEADER) && SameOutside(s, head, p + HEADER, p + r.Size())
    ensures Midway(s, size, b, log, r)
  {
    hide Boots;
    AtLocal(head, s, b + End(log), Interrupted(r, r.body).Header());
    MidwayBoots(img, s, size, b, log, r);
  }

  /** Rewriting a header whose second word stays is done with its first word. */
  lemma SecondWordStays(img: Image, p: nat, a: seq<byte>, b: seq<byte>)
    requires At(img, p, a) && |a| == |b| == HEADER && a[4..] == b[4..]
    ensures Program(img, p, b[..4]) == Program(img, p, b)
  {
    var l, r := Program(img, p, b[..4]), Program(img, p, b);
    forall i | 0 <= i < |img| ensures l[i] == r[i] {
      if p + 4 <= i < p + HEADER {
        assert img[i] == img[p..p + HEADER][i - p] == a[4..][i - p - 4] == b[i - p];
        AndSelf(img[i]);
      }
    }
  }

  lemma CompletedImage(head: Image, payload: Image, p: nat, r: Rec)
    requires r.Wf() && r.Live() && p + r.Size() <= |head|
    requires At(head, p, Interrupted(r, r.body).Header())
    requires SameOutside(payload, head, p + HEADER, p + r.Size()) && At(payload, p + HEADER, r.body)
    ensures var last := Program(payload, p, r.Header());
            && At(last, p, r.Bytes()) && SameOutside(last, payload, p, p + HEADER)
            && Program(payload, p, r.Header()[..4]) == last
  {
    var q, last := Interrupted(r, r.body), Program(payload, p, r.Header());
    AtLocal(head, payload, p, q.Header());
    RaisingClears(q, true, false, false);
    assert r == q.(flags := r.flags);
    ProgramClears(payload, p, q.Header(), r.Header());
    AtLocal(payload, last, p + HEADER, r.body);
    BytesJoin(last, p, r);
    SecondWordStays(payload, p, q.Header(), r.Header());
  }

  lemma BytesJoin(img: Image, p: nat, r: Rec)
    requires At(img, p, r.Header()) && At(img, p + HEADER, r.body)
    ensures At(img, p, r.Bytes())
  {
    assert img[p..p + r.Size()] == img[p..p + HEADER] + img[p + HEADER..p + r.Size()];
  }

  ghost predicate AppendingSince(before: seq<Image>, now: seq<Image>, size: nat, b: nat, log: Log, r: Rec) {
    before <= now && forall k :: |before| <= k < |now| ==> AppendStage(now[k], size, b, log, r)
  }

  lemma AppendingJoin(a: seq<Image>, b: seq<Image>, c: seq<Image>, size: nat, base: nat, log: Log, r: Rec)
    requires AppendingSince(a, b, size, base, log, r) && AppendingSince(b, c, size, base, log, r)
    ensures AppendingSince(a, c, size, base, log, r)
  {
    hide AppendStage;
    forall k | |a| <= k < |c| ensures AppendStage(c[k], size, base, log, r) {
      if k < |b| { assert c[k] == b[k]; }
    }
  }

  /** The images of the first header write. */
  lemma FirstStages(img: Image, size: nat, b: nat, log: Log, r: Rec, h0: seq<Image>, h1: seq<Image>)
    requires Boots(img, size, b, log) && (b + End(log)) % 4 == 0 && r.Wf() && End(log) + r.Size() <= size
    requires WrittenSince(h0, h1, img, b + End(log), Interrupted(r, r.body).Header())
    ensures AppendingSince(h0, h1, size, b, log, r)
  {
    hide Boots, IsStage, Program;
    var p, h := b + End(log), Interrupted(r, r.body).Header();
    HeaderFirst(img, size, b, log, r);
    TornBoots(img, size, b, log, r);
    var head := Program(img, p, h);
    HeadMidway(img, head, size, b, log, r);
    forall k | |h0| <= k < |h1| ensures AppendStage(h1[k], size, b, log, r) {
      TwoWords(h1[k], img, p, h);
    }
  }

  lemma HeadMidway(img: Image, head: Image, size: nat, b: nat, log: Log, r: Rec)
    requires Boots(img, size, b, log) && r.Wf() && End(log) + r.Size() <= size
    requires At(head, b + End(log), Interrupted(r, r.body).Header()) && SameOutside(head, img, b + End(log), b + End(log) + HEADER)
    ensures Midway(head, size, b, log, r)
  {
    hide Boots;
    assert SameOutside(head, head, b + End(log) + HEADER, b + End(log) + r.Size());
    PayloadMidway(img, head, head, size, b, log, r);
  }

  /** The images of the payload writes. */
  lemma PayloadStages(img: Image, head: Image, size: nat, b: nat, log: Log, r: Rec, stop: nat, h1: seq<Image>, h2: seq<Image>)
    requires Boots(img, size, b, log) && r.Wf() && End(log) + r.Size() <= size
    requires head == Program(img, b + End(log), Interrupted(r, r.body).Header())
    requires ChangedWithin(h1, h2, head, b + End(log) + HEADER, stop) && stop <= b + End(log) + r.Size()
    ensures AppendingSince(h1, h2, size, b, log, r)
  {
    hide Boots, Program, At;
    HeaderFirst(img, size, b, log, r);
    forall k | |h1| <= k < |h2| ensures AppendStage(h2[k], size, b, log, r) {
      assert SameOutside(h2[k], head, b + End(log) + HEADER, stop);
      PayloadMidway(img, head, h2[k], size, b, log, r);
    }
  }

  /** The images of the second header write, and where it ends. */
  lemma LastStages(img: Image, head: Image, payload: Image, size: nat, b: nat, log: Log, r: Rec, h2: seq<Image>, h: seq<Image>)
    requires Boots(img, size, b, log) && (b + End(log)) % 4 == 0 && r.Wf() && r.Live() && End(log) + r.Size() <= size
    requires var p := b + End(log);
             && head == Program(img, p, Interrupted(r, r.body).Header())
             && SameOutside(payload, head, p + HEADER, p + r.Size()) && At(payload, p + HEADER, r.body)
             && WrittenSince(h2, h, payload, p, r.Header())
    ensures Boots(Program(payload, b + End(log), r.Header()), size, b, log + [r])
    ensures AppendingSince(h2, h, size, b, log, r)
  {
    hide Boots, IsStage, At, Erased, Program;
    var p := b + End(log);
    var last := Program(payload, p, r.Header());
    HeaderFirst(img, size, b, log, r);
    CompletedImage(head, payload, p, r);
    OutsideJoin(img, head, payload, last, p, p + r.Size());
    AppendBoots(img, last, size, b, log, r);
    forall k | |h2| <= k < |h| ensures AppendStage(h[k], size, b, log, r) {
      TwoWords(h[k], payload, p, r.Header());
    }
  }

  lemma OutsideJoin(img: Image, head: Image, payload: Image, last: Image, lo: nat, hi: nat)
    requires lo + HEADER <= hi
    requires SameOutside(head, img, lo, lo + HEADER) && SameOutside(payload, head, lo + HEADER, hi) && SameOutside(last, payload, lo, lo + HEADER)
    ensures SameOutside(last, img, lo, hi)
  {}

  /** What the writes of one record leave on the device: the first header, the payload, and the second header. */
  ghost predicate Written(img: Image, head: Image, payload: Image, last: Image, p: nat, first: seq<byte>, second: seq<byte>,
                          frags: seq<seq<byte>>, h0: seq<Image>, h1: seq<Image>, h2: seq<Image>, h: seq<Image>)
  {
    && head == Program(img, p, first) && WrittenSince(h0, h1, img, p, first)
    && payload == StoreAll(head, p + HEADER, frags) && ChangedWithin(h1, h2, head, p + HEADER, Stop(p + HEADER, frags))
    && last == Program(payload, p, second) && WrittenSince(h2, h, payload, p, second)
  }

  lemma RecordWritten(img: Image, head: Image, payload: Image, last: Image, size: nat, b: nat, log: Log, r: Rec,
                      frags: seq<seq<byte>>, h0: seq<Image>, h1: seq<Image>, h2: seq<Image>, h: seq<Image>)
    requires Boots(img, size, b, log) && (b + End(log)) % 4 == 0
    requires r.Wf() && r.Live() && End(log) + r.Size() <= size
    requires Stop(0, frags) <= |r.body| && r.body == StoreAll(Fill(|r.body|), 0, frags)
    requires Written(img, head, payload, last, b + End(log), Interrupted(r, r.body).Header(), r.Header(), frags, h0, h1, h2, h)
    ensures Boots(last, size, b, log + [r]) && AppendingSince(h0, h, size, b, log, r)
  {
    hide Boots, AppendingSince, IsStage, Program, At, WrittenSince, ChangedWithin, StoreAll;
    var p := b + End(log);
    HeaderFirst(img, size, b, log, r);
    PayloadAt(head, p + HEADER, frags, r.body);
    FirstStages(img, size, b, log, r, h0, h1);
    PayloadStages(img, head, size, b, log, r, Stop(p + HEADER, frags), h1, h2);
    LastStages(img, head, payload, size, b, log, r, h2, h);
    AppendingJoin(h0, h1, h2, size, b, log, r);
    AppendingJoin(h0, h2, h, size, b, log, r);
  }

  /** Over erased, aligned cells the writer leaves what it leaves on erased cells of its own. */
  lemma PayloadAt(head: Image, a: nat, frags: seq<seq<byte>>, body: seq<byte>)
    requires a % 4 == 0 && a + |body| <= |head| && Erased(head, a, a + |body|)
    requires Stop(0, frags) <= |body| && body == StoreAll(Fill(|body|), 0, frags)
    ensures Stop(a, frags) == a + Stop(0, frags)
    ensures At(StoreAll(head, a, frags), a, body) && SameOutside(StoreAll(head, a, frags), head, a, a + |body|)
  {
    hide StoreAll, Stop;
    StopShift(a, 0, frags);
    StoreWindow(head, a, |body|, 0, frags);
    assert head[a..a + |body|] == Fill(|body|);
    StoreWithin(head, a, frags);
  }

  /** The writer stays inside the padded payload of a record of its length. */
  predicate Contained(frags: seq<seq<byte>>) {
    |Concat(frags)| <= MAX_LEN && Stop(0, frags) <= AlignLength(|Concat(frags)|)
  }

  lemma ContainedLength(frags: seq<seq<byte>>)
    requires Contained(frags)
    ensures |Concat(frags)| <= MAX_LEN
  {}

  /** The record the writer leaves. */
  function VectorRec(key: u16, index0: bool, frags: seq<seq<byte>>, reserved: u16): (r: Rec)
    requires |Concat(frags)| <= MAX_LEN
    ensures r.Wf() && r.Live() && r.key == key && r.Index0() == index0 && r.len == |Concat(frags)|
    ensures r.flags == Flags(true, true, false, index0, 15) && r.flagHi == 0 && r.reserved == reserved
    ensures |r.body| == AlignLength(|Concat(frags)|) && r.body == StoreAll(Fill(|r.body|), 0, frags)
  {
    var n := |Concat(frags)|;
    StoreWithin(Fill(AlignLength(n)), 0, frags);
    Rec(key, Flags(true, true, false, index0, 15), 0, n, reserved, StoreAll(Fill(AlignLength(n)), 0, frags))
  }

  /** For fragments that reach, it holds their concatenation. */
  lemma VectorRecReaching(key: u16, index0: bool, frags: seq<seq<byte>>, reserved: u16)
    requires Reaches(0, frags) && |Concat(frags)| <= MAX_LEN
    ensures Contained(frags) && VectorRec(key, index0, frags, reserved) == NewRec(key, index0, Concat(frags), reserved)
  {
    var value := Concat(frags);
    var n := AlignLength(|value|);
    ReachingStop(0, frags);
    ReachingIsConcat(Fill(n), 0, frags);
    ProgramErased(Fill(n), 0, value);
    var body := Program(Fill(n), 0, value);
    assert body[..|value|] == body[0..|value|] == value;
    assert body == body[..|value|] + body[|value|..];
    assert body[|value|..] == Fill(n - |value|);
  }

  /** For others it does not: an all-zero payload of these lengths is stored as something else. */
  lemma VectorRecTorn(key: u16, index0: bool, frags: seq<seq<byte>>, reserved: u16)
    requires !Reaches(0, frags) && Zeros(frags) && |Concat(frags)| <= MAX_LEN
    ensures VectorRec(key, index0, frags, reserved) != NewRec(key, index0, Concat(frags), reserved)
  {
    var value := Concat(frags);
    var n := AlignLength(|value|);
    NotReachingTears(Fill(n), 0, frags);
    ProgramErased(Fill(n), 0, value);
    var body := Program(Fill(n), 0, value);
    assert body == body[0..|value|] + body[|value|..];
    assert body[|value|..] == Fill(n - |value|);
  }

  /** A vector that is not contained writes past its record: an all-zero payload clears a cell of the next one. */
  lemma OverrunHits(img: Image, a: nat, frags: seq<seq<byte>>)
    requires a % 4 == 0 && |Concat(frags)| <= MAX_LEN && !Contained(frags) && Zeros(frags)
    requires a + Stop(0, frags) <= |img|
    ensures |StoreAll(img, a, frags)| == |img| && StoreAll(img, a, frags)[a + Stop(0, frags) - 1] == 0
    ensures Stop(0, frags) > AlignLength(|Concat(frags)|)
  {
    StopShift(a, 0, frags);
    StopReached(img, a, frags);
  }

  lemma NewHeaders(r: Rec, index0: bool)
    requires r.flags == Flags(true, true, false, index0, 15) && r.flagHi == 0
    ensures var flag: byte := if index0 then 0xF6 else 0xFE;
            && Interrupted(r, r.body).Header() == Block(r.key, flag, 0, r.len, r.reserved).Bytes()
            && r.Header() == Block(r.key, And(flag, 0xFD), 0, r.len, r.reserved).Bytes()
  {
    MaskOctets();
    OctetClear(Flags(true, false, false, index0, 15), true, false, false);
    assert Flags(true, false, false, true, 15).Octet() == 0xF6;
    assert Flags(true, false, false, false, 15).Octet() == 0xFE;
  }

  lemma RecordAligned(b: nat, size: nat, log: Log)
    requires (b == 0 || b == size) && size % 4 == 0 && AllWf(log)
    ensures (b + End(log)) % 4 == 0
  {
    OffAligned(log, |log|);
  }

  lemma BootsLog(img: Image, size: nat, b: nat, log: Log)
    requires Boots(img, size, b, log)
    ensures AllWf(log) && (b == 0 || b == size) && End(log) <= size
  {}

  /** The two headers the code writes for a vector are those of its record. */
  lemma BlockHeaders(block: Block, done: Block, index0: bool, frags: seq<seq<byte>>)
    requires Contained(frags) && |Concat(frags)| == block.len
    requires block.flag == (if index0 then 0xF6 else 0xFE) && block.flagHi == 0 && done == block.(flag := And(block.flag, 0xFD))
    ensures var r := VectorRec(block.key, index0, frags, block.reserved);
            && Interrupted(r, r.body).Header() == block.Bytes() && r.Header() == done.Bytes()
            && r.Wf() && r.Live() && r.Size() == HEADER + AlignLength(block.len) && Stop(0, frags) <= |r.body|
  {
    hide VectorRec;
    NewHeaders(VectorRec(block.key, index0, frags, block.reserved), index0);
  }

  lemma BlockWritten(img: Image, head: Image, payload: Image, last: Image, size: nat, b: nat, log: Log, p: nat, block: Block, done: Block,
                     index0: bool, frags: seq<seq<byte>>, h0: seq<Image>, h1: seq<Image>, h2: seq<Image>, h: seq<Image>)
    requires Boots(img, size, b, log) && size % 4 == 0 && p == b + End(log)
    requires Contained(frags) && |Concat(frags)| == block.len && End(log) + HEADER + AlignLength(block.len) <= size
    requires block.flag == (if index0 then 0xF6 else 0xFE) && block.flagHi == 0 && done == block.(flag := And(block.flag, 0xFD))
    requires Written(img, head, payload, last, p, block.Bytes(), done.Bytes(), frags, h0, h1, h2, h)
    ensures var r := VectorRec(block.key, index0, frags, block.reserved);
            && Boots(last, size, b, log + [r]) && End(log + [r]) == End(log) + HEADER + AlignLength(block.len)
            && AppendingSince(h0, h, size, b, log, r)
  {
    hide Boots, Written, AppendingSince, StoreAll, Stop, VectorRec, Off, Concat, AlignLength, Contained, And, Interrupted;
    ContainedLength(frags);
    var r := VectorRec(block.key, index0, frags, block.reserved);
    BootsLog(img, size, b, log);
    BlockHeaders(block, done, index0, frags);
    RecordAligned(b, size, log);
    OffAppend(log, r);
    RecordWritten(img, head, payload, last, size, b, log, r, frags, h0, h1, h2, h);
  }

  /* ---- compaction ---- */

  /** What a power cut during a compaction of `log` can leave: the old area still boots, or the new one does. */
  ghost predicate SwapStage(s: Image, size: nat, b: nat, log: Log) {
    Boots(s, size, b, log) || (b <= size && Boots(s, size, size - b, Compact(log)))
  }

  ghost predicate SwappingSince(before: seq<Image>, now: seq<Image>, size: nat, b: nat, log: Log) {
    before <= now && forall k :: |before| <= k < |now| ==> SwapStage(now[k], size, b, log)
  }

  /** While records are copied behind the new area's flag word, the old area keeps booting. */
  lemma CopyBoots(img: Image, s: Image, size: nat, b: nat, log: Log, lo: nat, hi: nat)
    requires Boots(img, size, b, log) && SameOutside(s, img, lo, hi)
    requires size - b + FLAG_SIZE <= lo && hi <= 2 * size - b
    ensures Boots(s, size, b, log)
  {
    OtherFlag(img, s, size, lo, hi);
    BootsElsewhere(img, s, size, b, log);
  }

  /** The state of a swap: the old area still boots into `log`, the new one holds the records `c`. */
  ghost predicate Swapping(img: Image, size: nat, b: nat, log: Log, nb: nat, c: Log) {
    nb + b == size && Boots(img, size, b, log) && Area(img, nb, size, IN_SWAP, c)
  }

  function CopyImage(img: Image, p: nat, r: Rec): Image {
    Program(Program(img, p, r.Header()), p + HEADER, r.body[..CopiedLength(|r.body|)])
  }

  lemma CopiedRoom(img: Image, nb: nat, size: nat, c: Log, r: Rec)
    requires Area(img, nb, size, IN_SWAP, c) && r.Wf() && r.Live() && End(c) + r.Size() <= size
    ensures Copied(r).Wf() && Copied(r).Size() == r.Size()
    ensures var p := nb + End(c);
            var s := CopyImage(img, p, r); At(s, p, Copied(r).Bytes()) && SameOutside(s, img, p, p + r.Size())
  {
    CopiedWhole(r);
    CopiedBytes(img, nb + End(c), r);
  }

  lemma CopyArea(img: Image, nb: nat, size: nat, c: Log, r: Rec, d: Log)
    requires Area(img, nb, size, IN_SWAP, c) && r.Wf() && r.Live() && End(c) + r.Size() <= size && d == c + [Copied(r)]
    ensures var s := CopyImage(img, nb + End(c), r);
            Area(s, nb, size, IN_SWAP, d) && SameOutside(s, img, nb + End(c), nb + End(c) + r.Size())
  {
    hide Area, At, SameOutside, Program, CopyImage;
    CopiedRoom(img, nb, size, c, r);
    AreaAppend(img, CopyImage(img, nb + End(c), r), nb, size, IN_SWAP, c, Copied(r));
  }

  lemma CopyRoom(log: Log, i: nat, size: nat)
    requires i < |log| && End(log) <= size
    ensures End(CompactPrefix(log, i)) + log[i].Size() <= size
  {
    CompactShrinks(log, i);
    OffMono(log, i, |log|);
  }

  /** Copying a record makes the new area hold one more compacted record. */
  lemma CopyExtends(img: Image, s: Image, size: nat, b: nat, log: Log, nb: nat, c: Log, r: Rec, d: Log, dst: nat)
    requires Swapping(img, size, b, log, nb, c) && r.Wf() && r.Live() && End(c) + r.Size() <= size
    requires dst == nb + End(c) && s == CopyImage(img, dst, r) && d == c + [Copied(r)]
    ensures Swapping(s, size, b, log, nb, d) && End(d) == End(c) + r.Size()
  {
    CopyArea(img, nb, size, c, r, d);
    CopyBoots(img, s, size, b, log, nb + End(c), nb + End(c) + r.Size());
    OffAppend(c, Copied(r));
  }

  lemma CopiedBytes(img: Image, p: nat, r: Rec)
    requires r.Wf() && p + r.Size() <= |img| && Erased(img, p, p + r.Size())
    ensures At(CopyImage(img, p, r), p, Copied(r).Bytes())
  {
    var c := CopiedLength(|r.body|);
    var data := r.Header() + r.body[..c];
    ProgramJoin(img, p, r.Header(), r.body[..c]);
    ErasedTail(img, p, data, |r.body| - c);
    assert Copied(r).Bytes() == data + Fill(|r.body| - c);
  }

  lemma ErasedTail(img: Image, p: nat, data: seq<byte>, n: nat)
    requires p + |data| + n <= |img| && Erased(img, p, p + |data| + n)
    ensures At(Program(img, p, data), p, data + Fill(n))
  {
    ProgramErased(img, p, data);
    var s, m := Program(img, p, data), p + |data|;
    assert s[p..m + n] == s[p..m] + s[m..m + n];
    assert s[m..m + n] == Fill(n);
  }

  /* ---- the copy loop ---- */

  /** The copy loop once the source octets [src, end) are behind the header at `dst`. */
  ghost predicate Copying(img: Image, now: Image, src: nat, end: nat, dst: nat, header: seq<byte>)
    requires src <= end <= |img|
  {
    now == Program(Program(img, dst, header), dst + |header|, img[src..end])
  }

  lemma ProgramTwiceOutside(img: Image, p: nat, a: seq<byte>, b: seq<byte>, hi: nat)
    requires p + |a| + |b| <= hi
    ensures SameOutside(Program(Program(img, p, a), p + |a|, b), img, p, hi)
  {}

  lemma CopyingStart(img: Image, src: nat, dst: nat, header: seq<byte>, hi: nat)
    requires src <= |img| && dst + |header| <= hi
    ensures Copying(img, Program(img, dst, header), src, src, dst, header)
    ensures SameOutside(Program(img, dst, header), img, dst, hi)
  {
    assert img[src..src] == [];
    ProgramNothing(Program(img, dst, header), dst + |header|);
  }

  lemma SourceIntact(img: Image, now: Image, lo: nat, hi: nat, at: nat, to: nat)
    requires SameOutside(now, img, lo, hi) && at <= to <= |img| && (to <= lo || hi <= at)
    ensures now[at..to] == img[at..to]
  {}

  lemma CopyChunk(img: Image, now: Image, next: Image, buffer: seq<byte>, src: nat, at: nat, to: nat, target: nat, dst: nat, header: seq<byte>, hi: nat)
    requires target == dst + |header| + (at - src) && src <= at <= to <= |img| == |now| && dst + |header| + (to - src) <= hi
    requires Copying(img, now, src, at, dst, header) && (to <= dst || hi <= src)
    requires buffer == now[at..to] && next == Program(now, target, buffer)
    ensures Copying(img, next, src, to, dst, header) && SameOutside(next, img, dst, hi)
  {
    hide Program, SameOutside;
    var a, b := img[src..at], img[at..to];
    ProgramTwiceOutside(img, dst, header, a, hi);
    SourceIntact(img, now, dst, hi, at, to);
    assert a + b == img[src..to];
    ProgramJoin(Program(img, dst, header), dst + |header|, a, b);
    ProgramTwiceOutside(img, dst, header, a + b, hi);
  }

  /** All images on the way through one chunk. */
  lemma ChunkHistory(img: Image, now: Image, buffer: seq<byte>, src: nat, at: nat, target: nat, dst: nat, header: seq<byte>, hi: nat,
                     h0: seq<Image>, h1: seq<Image>)
    requires target == dst + |header| + (at - src) && src <= at <= |img| == |now| && dst + |header| + (at - src) + |buffer| <= hi
    requires Copying(img, now, src, at, dst, header)
    requires WrittenSince(h0, h1, now, target, buffer)
    ensures ChangedWithin(h0, h1, img, dst, hi)
  {
    ProgramTwiceOutside(img, dst, header, img[src..at], hi);
    WrittenWithin(h0, h1, now, target, buffer, dst, hi);
    forall k | |h0| <= k < |h1| ensures SameOutside(h1[k], img, dst, hi) {
      assert SameOutside(h1[k], now, dst, hi);
    }
  }

  /** One pass of the copy loop. */
  function ChunkSize(padded: nat, copied: nat): nat
    requires copied <= padded
  {
    if CHUNK > padded - copied + HEADER then padded - copied + HEADER else CHUNK
  }

  /** Where the copy loop stops if it has moved `copied` octets, header included. */
  function StopsAt(padded: nat, copied: nat): nat
    decreases padded + HEADER - copied
  {
    if copied < padded then StopsAt(padded, copied + ChunkSize(padded, copied)) else copied
  }

  lemma {:induction false} StopsFrom(padded: nat, done: nat)
    requires done <= padded
    ensures StopsAt(padded, HEADER + done) == HEADER + done + CopiedLength(padded - done)
    decreases padded - done
  {
    if padded - done >= CHUNK { StopsFrom(padded, done + CHUNK); }
  }

  /** The loop bound counts the header but is compared with the payload alone: it moves exactly this much. */
  lemma CopyLoopStops(padded: nat)
    ensures StopsAt(padded, HEADER) == HEADER + CopiedLength(padded)
  {
    StopsFrom(padded, 0);
  }

  /** The copy loop on record `i` of the old area does what `CopyImage` says. */
  lemma CopyLoopIsCopy(img: Image, now: Image, b: nat, l: Log, i: nat, dst: nat)
    requires RecordsAt(img, b, l) && AllWf(l) && i < |l|
    requires var src, n := Position(b, l, i) + HEADER, CopiedLength(|l[i].body|);
             src + n <= |img| && Copying(img, now, src, src + n, dst, l[i].Header())
    ensures now == CopyImage(img, dst, l[i])
  {
    hide RecordsAt, AllWf, Off, CopiedLength, Program;
    var src, n := Position(b, l, i) + HEADER, CopiedLength(|l[i].body|);
    BlockAt(img, b, l, i);
    SlicePrefix(img, src, n, |l[i].body|);
  }

  lemma SlicePrefix(img: Image, at: nat, n: nat, m: nat)
    requires n <= m && at + m <= |img|
    ensures img[at..at + n] == img[at..at + m][..n]
  {}

  /** The history only grew, by images that still boot into `log`. */
  ghost predicate BootingSince(before: seq<Image>, now: seq<Image>, size: nat, b: nat, log: Log) {
    before <= now && forall k :: |before| <= k < |now| ==> Boots(now[k], size, b, log)
  }

  lemma CopyHistory(img: Image, size: nat, b: nat, log: Log, lo: nat, hi: nat, before: seq<Image>, now: seq<Image>)
    requires Boots(img, size, b, log) && size - b + FLAG_SIZE <= lo && hi <= 2 * size - b
    requires ChangedWithin(before, now, img, lo, hi)
    ensures BootingSince(before, now, size, b, log)
  {
    forall k | |before| <= k < |now| ensures Boots(now[k], size, b, log) {
      CopyBoots(img, now[k], size, b, log, lo, hi);
    }
  }

  /** The copy loop on a surviving record takes the swap one step further. */
  lemma CopyDone(img: Image, now: Image, size: nat, b: nat, l: Log, nb: nat, i: nat, c: Log, d: Log, dst: nat, src: nat, end: nat)
    requires Swapping(img, size, b, l, nb, c) && i < |l| && l[i].Live() && d == c + [Copied(l[i])] && End(c) + l[i].Size() <= size
    requires dst == nb + End(c) && src == Position(b, l, i) + HEADER && end == src + CopiedLength(|l[i].body|) && end <= |img|
    requires Copying(img, now, src, end, dst, l[i].Header())
    ensures Swapping(now, size, b, l, nb, d) && End(d) == End(c) + l[i].Size()
  {
    var r := l[i];
    assert r.Wf();
    assert now == CopyImage(img, dst, r) by { CopyLoopIsCopy(img, now, b, l, i, dst); }
    CopyExtends(img, now, size, b, l, nb, c, r, d, dst);
  }

  /** So it does, and every image on the way still boots the old area. */
  lemma CopyFinished(img: Image, now: Image, size: nat, b: nat, l: Log, nb: nat, i: nat, c: Log, d: Log, header: seq<byte>,
                     dst: nat, hi: nat, src: nat, end: nat, h0: seq<Image>, h: seq<Image>)
    requires Swapping(img, size, b, l, nb, c) && i < |l| && l[i].Live() && d == c + [Copied(l[i])] && header == l[i].Header()
    requires dst == nb + End(c) && hi == dst + l[i].Size() && End(c) + l[i].Size() <= size
    requires src == Position(b, l, i) + HEADER && end == src + CopiedLength(|l[i].body|) && end <= |img|
    requires Copying(img, now, src, end, dst, header) && ChangedWithin(h0, h, img, dst, hi)
    ensures Swapping(now, size, b, l, nb, d) && End(d) == End(c) + l[i].Size() && BootingSince(h0, h, size, b, l)
  {
    CopyDone(img, now, size, b, l, nb, i, c, d, dst, src, end);
    CopyHistory(img, size, b, l, dst, hi, h0, h);
  }

  /** A surviving record has room in the new area, and its old and new positions do not overlap. */
  lemma CopyReady(img: Image, size: nat, b: nat, l: Log, nb: nat, i: nat, c: Log)
    requires Swapping(img, size, b, l, nb, c) && i < |l| && l[i].Live() && c == CompactPrefix(l, i)
    ensures End(c) + l[i].Size() <= size && |l[i].body| < 0xFFF8
    ensures var start, dst, n := Position(b, l, i), nb + End(c), HEADER + |l[i].body|;
            start + n <= 2 * size && dst + n <= 2 * size && (start + n <= dst || dst + n <= start)
  {
    hide Area, Off, CompactPrefix;
    var r := l[i];
    SwapRoom(img, size, b, l, nb, c);
    assert r.Wf();
    CopyRoom(l, i, size);
    OffMono(l, i, |l|);
  }

  lemma SwapRoom(img: Image, size: nat, b: nat, l: Log, nb: nat, c: Log)
    requires Swapping(img, size, b, l, nb, c)
    ensures AllWf(l) && End(l) <= size && nb + b == size && (b == 0 || b == size)
  {}

  /* ---- the two final flag writes ---- */

  lemma SwapStart(img: Image, now: Image, size: nat, b: nat, log: Log, nb: nat)
    requires Boots(img, size, b, log) && nb + b == size && Formatted(now, img, nb, size, IN_SWAP)
    ensures Swapping(now, size, b, log, nb, CompactPrefix(log, 0)) && End(CompactPrefix(log, 0)) == FLAG_SIZE
  {
    assert b == size ==> !At(now, 0, IN_USE) by {
      if b == size { assert now[0..4] == IN_SWAP; assert IN_SWAP[0] != IN_USE[0]; }
    }
    BootsElsewhere(img, now, size, b, log);
  }

  lemma ClearingBoots(img: Image, size: nat, b: nat, log: Log, nb: nat, before: seq<Image>, now: seq<Image>)
    requires Boots(img, size, b, log) && nb + b == size && ClearingSince(before, now, img, nb, size)
    ensures BootingSince(before, now, size, b, log)
  {
    forall k | |before| <= k < |now| ensures Boots(now[k], size, b, log) {
      assert Clearing(now[k], img, nb, size);
      BootsElsewhere(img, now[k], size, b, log);
    }
  }

  lemma AndWords()
    ensures And(0xEF, 0xEE) == 0xEE && And(0xEE, 0xEC) == 0xEC
  {
    AndSelf(0x77);
    AndSelf(0x3B);
    assert And(0x77, 0x76) == 2 * And(0x3B, 0x3B);
  }

  lemma FlagClears()
    ensures Clears(IN_SWAP, IN_USE) && Clears(IN_USE, NOT_USE)
  {
    AndWords();
    AndSelf(0xC5);
    AndSelf(0x5C);
    AndSelf(0xBE);
    assert Clears(IN_SWAP, IN_USE) by {
      forall k | 0 <= k < 4 ensures And(IN_SWAP[k], IN_USE[k]) == IN_USE[k] {
        if k == 0 {} else if k == 1 {} else if k == 2 {} else {}
      }
    }
    assert Clears(IN_USE, NOT_USE) by {
      forall k | 0 <= k < 4 ensures And(IN_USE[k], NOT_USE[k]) == NOT_USE[k] {
        if k == 0 {} else if k == 1 {} else if k == 2 {} else {}
      }
    }
  }

  /** Rewriting an area's flag word keeps its records. */
  lemma AreaReflag(img: Image, b: nat, size: nat, w: seq<byte>, x: seq<byte>, log: Log)
    requires Area(img, b, size, w, log) && |w| == FLAG_SIZE && Clears(w, x)
    ensures Area(Program(img, b, x), b, size, x, log)
  {
    var s := Program(img, b, x);
    ProgramClears(img, b, w, x);
    forall i | 0 <= i < |log| ensures RecordAt(s, b, log, i) {
      assert RecordAt(img, b, log, i);
      AtLocal(img, s, b + FLAG_SIZE + Off(log, i), log[i].Bytes());
    }
  }

  /** First the new area comes into use; then the old one goes out of use. Each image boots into one of the two. */
  lemma SwapEnd(img: Image, size: nat, b: nat, log: Log, nb: nat, c: Log)
    requires Swapping(img, size, b, log, nb, c)
    ensures Clears(IN_SWAP, IN_USE) && Clears(IN_USE, NOT_USE)
    ensures var mid := Program(img, nb, IN_USE);
            && (Boots(mid, size, b, log) <==> !Boots(mid, size, nb, c))
            && Boots(Program(mid, b, NOT_USE), size, nb, c)
  {
    var mid := Program(img, nb, IN_USE);
    var last := Program(mid, b, NOT_USE);
    FlagClears();
    AreaReflag(img, nb, size, IN_SWAP, IN_USE, c);
    AreaLocal(img, mid, b, size, IN_USE, log);
    AreaReflag(mid, b, size, IN_USE, NOT_USE, log);
    AreaLocal(mid, last, nb, size, IN_USE, c);
    if Boots(mid, size, b, log) && Boots(mid, size, nb, c) { BootsUnique(mid, size, b, log, nb, c); }
    assert nb == size ==> !At(last, 0, IN_USE) by {
      if nb == size { assert last[0..4] == NOT_USE; assert NOT_USE[0] != IN_USE[0]; }
    }
  }

  lemma BootingJoin(a: seq<Image>, b: seq<Image>, c: seq<Image>, size: nat, base: nat, log: Log)
    requires BootingSince(a, b, size, base, log) && BootingSince(b, c, size, base, log)
    ensures BootingSince(a, c, size, base, log)
  {
    forall k | |a| <= k < |c| ensures Boots(c[k], size, base, log) {
      if k < |b| { assert c[k] == b[k]; }
    }
  }

  /** All images of a swap. */
  lemma SwapHistory(img: Image, size: nat, b: nat, log: Log, nb: nat, h0: seq<Image>, h1: seq<Image>, h2: seq<Image>, h3: seq<Image>)
    requires Swapping(img, size, b, log, nb, Compact(log)) && size % 4 == 0
    requires BootingSince(h0, h1, size, b, log) && WrittenSince(h1, h2, img, nb, IN_USE)
    requires WrittenSince(h2, h3, Program(img, nb, IN_USE), b, NOT_USE)
    ensures SwappingSince(h0, h3, size, b, log)
    ensures Boots(Program(Program(img, nb, IN_USE), b, NOT_USE), size, nb, Compact(log))
  {
    hide Boots, Swapping, Program, Clears, IsStage;
    var mid := Program(img, nb, IN_USE);
    SwapEnd(img, size, b, log, nb, Compact(log));
    SwapRoom(img, size, b, log, nb, Compact(log));
    forall k | |h0| <= k < |h3| ensures SwapStage(h3[k], size, b, log) {
      if k < |h1| {
        assert h3[k] == h1[k];
      } else if k < |h2| {
        assert h3[k] == h2[k];
        OneWord(h2[k], img, nb, IN_USE);
      } else {
        OneWord(h3[k], mid, b, NOT_USE);
      }
    }
  }

  /* ---- adding a setting, with or without a compaction first ---- */

  ghost predicate AddStage(s: Image, size: nat, b: nat, log: Log, r: Rec, full: bool)
    requires b <= size
  {
    if full then SwapStage(s, size, b, log) || AppendStage(s, size, size - b, Compact(log), r)
    else AppendStage(s, size, b, log, r)
  }

  /** The history only grew, by images an interrupted add can leave. */
  ghost predicate AddingSince(before: seq<Image>, now: seq<Image>, size: nat, b: nat, log: Log, r: Rec, full: bool)
    requires b <= size
  {
    before <= now && forall k :: |before| <= k < |now| ==> AddStage(now[k], size, b, log, r, full)
  }

  lemma AddHistory(h0: seq<Image>, h1: seq<Image>, h2: seq<Image>, size: nat, b: nat, nb: nat, log: Log, r: Rec)
    requires b <= size && nb == size - b && SwappingSince(h0, h1, size, b, log)
    requires h1 == h2 || AppendingSince(h1, h2, size, nb, Compact(log), r)
    ensures AddingSince(h0, h2, size, b, log, r, true)
  {
    SwapPart(h0, h1, size, b, log, r);
    if h1 != h2 { AppendPart(h0, h1, h2, size, b, nb, log, r); }
  }

  lemma PlainHistory(h0: seq<Image>, h1: seq<Image>, size: nat, b: nat, log: Log, r: Rec)
    requires b <= size && AppendingSince(h0, h1, size, b, log, r)
    ensures AddingSince(h0, h1, size, b, log, r, false)
  {
    hide AppendStage;
    forall k | |h0| <= k < |h1| ensures AddStage(h1[k], size, b, log, r, false) {
      assert AppendStage(h1[k], size, b, log, r);
    }
  }

  lemma SwapPart(h0: seq<Image>, h1: seq<Image>, size: nat, b: nat, log: Log, r: Rec)
    requires b <= size && SwappingSince(h0, h1, size, b, log)
    ensures AddingSince(h0, h1, size, b, log, r, true)
  {
    hide SwapStage, AppendStage;
    forall k | |h0| <= k < |h1| ensures AddStage(h1[k], size, b, log, r, true) {
      assert SwapStage(h1[k], size, b, log);
    }
  }

  lemma AppendPart(h0: seq<Image>, h1: seq<Image>, h2: seq<Image>, size: nat, b: nat, nb: nat, log: Log, r: Rec)
    requires b <= size && nb == size - b && AddingSince(h0, h1, size, b, log, r, true)
    requires AppendingSince(h1, h2, size, nb, Compact(log), r)
    ensures AddingSince(h0, h2, size, b, log, r, true)
  {
    hide SwapStage, AppendStage;
    forall k | |h0| <= k < |h2| ensures AddStage(h2[k], size, b, log, r, true) {
      if k < |h1| {
        assert AddStage(h1[k], size, b, log, r, true);
      } else {
        assert AppendStage(h2[k], size, nb, Compact(log), r);
      }
    }
  }

  lemma SingleFragment(value: seq<byte>)
    ensures Concat([value]) == value && Reaches(0, [value])
  {
    assert [value][1..] == [];
    assert Concat([value]) == value + Concat([]);
  }

  /* ---- power cuts, in terms of the lists ---- */

  /** Every key in shape in `log` is in shape in `l`, with the same values up to octets a compaction loses. */
  ghost predicate Outlives(l: Log, log: Log) {
    AllWf(l) && AllWf(log) && forall key: u16 :: Shape(log, key) ==> Shape(l, key) && Agree(List(l, key), List(log, key))
  }

  lemma CompactOutlives(log: Log)
    requires AllWf(log)
    ensures Outlives(Compact(log), log)
  {
    CompactWf(log, |log|);
    forall key: u16 | Shape(log, key) ensures Shape(Compact(log), key) && Agree(List(Compact(log), key), List(log, key)) {
      CompactInShape(log, key);
      CompactAgrees(log, key);
    }
  }

  /** A power cut anywhere in a compaction: whichever area start-up selects holds every list, and the shape of every key. */
  lemma PowerCutInSwap(s: Image, size: nat, b: nat, log: Log) returns (c: nat, l: Log)
    requires SwapStage(s, size, b, log) && AllWf(log)
    ensures Boots(s, size, c, l) && Outlives(l, log)
  {
    if Boots(s, size, b, log) {
      c, l := b, log;
    } else {
      c, l := size - b, Compact(log);
      CompactOutlives(log);
    }
  }

  /** The lists when `r` was cut off: nothing is added, but what a record marked index 0 replaces is hidden. */
  ghost predicate CutOff(l: Log, log: Log, r: Rec)
    requires AllWf(log)
  {
    AllWf(l) && forall key: u16 :: List(l, key) == if key == r.key && r.Index0() then [] else List(log, key)
  }

  /** The lists when `r` is complete. */
  ghost predicate Appended(l: Log, log: Log, r: Rec)
    requires AllWf(log)
  {
    AllWf(l) && forall key: u16 :: List(l, key) == WithRecord(List(log, key), r, key)
  }

  function WithRecord(list: seq<seq<byte>>, r: Rec, key: u16): seq<seq<byte>> {
    if key != r.key then list else if r.Index0() then [r.Value()] else list + [r.Value()]
  }

  lemma AppendWf(log: Log, r: Rec)
    requires AllWf(log) && r.Wf()
    ensures AllWf(log + [r])
  {
    var l := log + [r];
    forall i | 0 <= i < |l| ensures l[i].Wf() {
      if i < |log| { assert log[i].Wf(); }
    }
  }

  lemma CutOffLists(log: Log, q: Rec, r: Rec)
    requires AllWf(log) && q.Wf() && !q.Live() && q.key == r.key && q.Index0() == r.Index0()
    ensures CutOff(log + [q], log, r)
  {
    AppendWf(log, q);
    forall key: u16 ensures List(log + [q], key) == if key == r.key && r.Index0() then [] else List(log, key) {
      AppendPartial(log, q, key);
    }
  }

  lemma AppendedLists(log: Log, r: Rec)
    requires AllWf(log) && r.Wf() && r.Live()
    ensures Appended(log + [r], log, r)
  {
    AppendWf(log, r);
    forall key: u16 ensures List(log + [r], key) == WithRecord(List(log, key), r, key) {
      AppendLive(log, r, key);
    }
  }

  /** A power cut anywhere in an append: the record counts altogether or not at all, and the log stays usable. */
  lemma PowerCutInAppend(s: Image, size: nat, b: nat, log: Log, r: Rec) returns (l: Log)
    requires AppendStage(s, size, b, log, r) && AllWf(log) && r.Wf() && r.Live()
    ensures Boots(s, size, b, l) && AllWf(l) && (CutOff(l, log, r) || Appended(l, log, r))
    ensures forall key: u16 :: Shape(log, key) && (key == r.key && r.Index0() ==> List(log, key) == []) ==> Shape(l, key)
  {
    hide Boots, CutOff, Appended;
    if Boots(s, size, b, log + [r]) {
      l := log + [r];
      AppendedLists(log, r);
      forall key: u16 | Shape(log, key) ensures Shape(l, key) { AppendKeepsShape(log, r, key); }
    } else {
      var q := Torn(r);
      if Midway(s, size, b, log, r) {
        var body :| |body| == |r.body| && Boots(s, size, b, log + [Interrupted(r, body)]);
        q := Interrupted(r, body);
      }
      l := log + [q];
      CutOffLists(log, q, r);
      forall key: u16 | Shape(log, key) && (key == r.key && r.Index0() ==> List(log, key) == []) ensures Shape(l, key) {
        PartialKeepsShape(log, q, key);
      }
    }
    AppendWf(log, if Boots(s, size, b, log + [r]) then r else Torn(r));
  }

  /** The list `a` is `b`, as it is or, after a compaction, up to the octets that loses. */
  ghost predicate Same(full: bool, a: seq<seq<byte>>, b: seq<seq<byte>>) { if full then Agree(a, b) else a == b }

  /** At the least, every value of lossless length is there at its place, and every length. */
  lemma SameMeans(full: bool, a: seq<seq<byte>>, b: seq<seq<byte>>)
    requires Same(full, a, b)
    ensures !full ==> a == b
    ensures |a| == |b| && forall i :: 0 <= i < |a| ==> |a[i]| == |b[i]| && (|a[i]| <= 0xFFF4 && Lossless(|a[i]|) ==> a[i] == b[i])
  {
    if full {
      forall i | 0 <= i < |a| ensures |a[i]| == |b[i]| && (|a[i]| <= 0xFFF4 && Lossless(|a[i]|) ==> a[i] == b[i]) {
        assert SameSafely(a[i], b[i]);
        if |a[i]| <= 0xFFF4 && Lossless(|a[i]|) { AgreeLossless(a, b, i); }
      }
    }
  }

  /** The list `a` is `b` with `value` added. */
  ghost predicate SameAdded(full: bool, a: seq<seq<byte>>, b: seq<seq<byte>>, value: seq<byte>) {
    a != [] && a[|a| - 1] == value && Same(full, a[..|a| - 1], b)
  }

  lemma SameAddedMeans(full: bool, a: seq<seq<byte>>, b: seq<seq<byte>>, value: seq<byte>)
    requires SameAdded(full, a, b, value)
    ensures !full ==> a == b + [value]
    ensures |a| == |b| + 1 && a[|b|] == value
    ensures forall i :: 0 <= i < |b| ==> |a[i]| == |b[i]| && (|a[i]| <= 0xFFF4 && Lossless(|a[i]|) ==> a[i] == b[i])
  {
    SameMeans(full, a[..|a| - 1], b);
    assert a == a[..|a| - 1] + [value];
  }

  /** What a completed set makes of the lists. */
  lemma SetLists(log: Log, target: u16, value: seq<byte>, reserved: u16, full: bool)
    requires AllWf(log) && |value| <= MAX_LEN
    ensures var l := Apply(log, Set(target, value, reserved, full));
            && AllWf(l) && List(l, target) == [value]
            && forall key: u16 :: key != target && (full ==> Shape(log, key)) ==> Same(full, List(l, key), List(log, key))
  {
    hide Shape, Agree;
    var r := NewRec(target, true, value, reserved);
    var m := Room(log, full);
    CompactWf(log, |log|);
    AppendWf(m, r);
    AppendLive(m, r, target);
    forall key: u16 | key != target && (full ==> Shape(log, key)) ensures Same(full, List(m + [r], key), List(log, key)) {
      AppendLive(m, r, key);
      if full { CompactAgrees(log, key); }
    }
  }

  /** What a completed add makes of them. */
  lemma AddLists(log: Log, target: u16, value: seq<byte>, reserved: u16, full: bool)
    requires AllWf(log) && |value| <= MAX_LEN
    ensures var l := Apply(log, Add(target, value, reserved, full));
            && AllWf(l)
            && forall key: u16 :: (full ==> Shape(log, key)) ==>
                 if key == target then SameAdded(full, List(l, key), List(log, key), value) else Same(full, List(l, key), List(log, key))
  {
    hide Shape;
    var r := NewRec(target, Visible(log, |log|, target) == [], value, reserved);
    var m := Room(log, full);
    CompactWf(log, |log|);
    AppendWf(m, r);
    assert Visible(log, |log|, target) == [] <==> List(log, target) == [];
    forall key: u16 | full ==> Shape(log, key)
      ensures if key == target then SameAdded(full, List(m + [r], key), List(log, key), value) else Same(full, List(m + [r], key), List(log, key))
    {
      AppendLive(m, r, key);
      if full { CompactAgrees(log, key); }
      if key == target { LastAdded(full, List(m, key), List(log, key), List(m + [r], key), value); }
    }
  }

  lemma LastAdded(full: bool, v: seq<seq<byte>>, before: seq<seq<byte>>, l: seq<seq<byte>>, value: seq<byte>)
    requires Same(full, v, before) && l == (if before == [] then [] else v) + [value]
    ensures SameAdded(full, l, before, value)
  {
    assert l[..|l| - 1] == if before == [] then [] else v;
  }

  /**
   * A power cut anywhere in an append, compaction included: each key's list is as it was, except that the list of the
   * record's own key may have changed, from `v` to whatever the cut-off or complete record makes of it.
   */
  lemma PowerCutInStore(s: Image, size: nat, b: nat, log: Log, r: Rec, full: bool, key: u16) returns (c: nat, l: Log, v: seq<seq<byte>>)
    requires b <= size && AddStage(s, size, b, log, r, full) && AllWf(log) && r.Wf() && r.Live() && (full ==> Shape(log, key))
    ensures Boots(s, size, c, l) && AllWf(l) && Same(full, v, List(log, key))
    ensures List(l, key) == v || (key == r.key && List(l, key) == if r.Index0() then [] else v)
                              || (key == r.key && List(l, key) == (if r.Index0() then [] else v) + [r.Value()])
    ensures Shape(log, key) && (key == r.key && r.Index0() ==> List(log, key) == []) ==> Shape(l, key)
  {
    hide Boots, Shape, CutOff, Appended;
    if full && SwapStage(s, size, b, log) {
      c, l := PowerCutInSwap(s, size, b, log);
      v := List(l, key);
    } else {
      var m := log;
      c := b;
      if full {
        m, c := Compact(log), size - b;
        CompactOutlives(log);
      }
      v := List(m, key);
      l := PowerCutInAppend(s, size, c, m, r);
      ListAfter(l, m, r, key);
    }
  }

  lemma ListAfter(l: Log, m: Log, r: Rec, key: u16)
    requires AllWf(m) && (CutOff(l, m, r) || Appended(l, m, r))
    ensures AllWf(l)
    ensures var v, w := List(m, key), if r.Index0() then [] else List(m, key);
            List(l, key) == v || (key == r.key && (List(l, key) == w || List(l, key) == w + [r.Value()]))
  {}

  /** An interrupted add is all or nothing, compaction included: no key changes but the added one, which has the value or not. */
  lemma PowerCutInAdd(s: Image, size: nat, b: nat, log: Log, added: u16, value: seq<byte>, reserved: u16, full: bool, key: u16)
    returns (c: nat, l: Log)
    requires b <= size && |value| <= MAX_LEN && AllWf(log) && (full ==> Shape(log, key))
    requires AddStage(s, size, b, log, NewRec(added, Visible(log, |log|, added) == [], value, reserved), full)
    ensures Boots(s, size, c, l) && AllWf(l) && (Shape(log, key) ==> Shape(l, key))
    ensures Same(full, List(l, key), List(log, key)) || (key == added && SameAdded(full, List(l, key), List(log, key), value))
  {
    hide Boots, Shape, AddStage, Agree;
    var r := NewRec(added, Visible(log, |log|, added) == [], value, reserved);
    var v;
    c, l, v := PowerCutInStore(s, size, b, log, r, full, key);
    assert Visible(log, |log|, added) == [] <==> List(log, added) == [];
    AgreeEmpty(v, List(log, key));
    if List(l, key) == v + [value] {
      assert (v + [value])[..|v|] == v;
    } else if List(l, key) == [] + [value] {
      assert [value][..0] == [];
    }
  }

  lemma AgreeEmpty(a: seq<seq<byte>>, b: seq<seq<byte>>)
    ensures Agree(a, b) && b == [] ==> a == []
    ensures b == [] ==> Agree([], b)
  {}

  /** An interrupted set can also leave its key empty: the old value is hidden before the new one is complete. */
  lemma PowerCutInSet(s: Image, size: nat, b: nat, log: Log, target: u16, value: seq<byte>, reserved: u16, full: bool, key: u16)
    returns (c: nat, l: Log)
    requires b <= size && |value| <= MAX_LEN && AllWf(log) && (full ==> Shape(log, key))
    requires AddStage(s, size, b, log, NewRec(target, true, value, reserved), full)
    ensures Boots(s, size, c, l) && AllWf(l)
    ensures Same(full, List(l, key), List(log, key)) || (key == target && (List(l, key) == [] || List(l, key) == [value]))
    ensures key != target && Shape(log, key) ==> Shape(l, key)
  {
    var v;
    c, l, v := PowerCutInStore(s, size, b, log, NewRec(target, true, value, reserved), full, key);
  }

  /* ---- power cuts in a delete ---- */

  /** The image boots into a log in the middle of a delete. */
  ghost predicate DeleteStage(s: Image, size: nat, b: nat, l: Log, key: u16, index: int) {
    exists m, i: nat :: i <= |l| && Boots(s, size, b, m) && Partly(l, m, i, key, index)
  }

  ghost predicate DeletingSince(before: seq<Image>, now: seq<Image>, size: nat, b: nat, l: Log, key: u16, index: int) {
    before <= now && forall k :: |before| <= k < |now| ==> DeleteStage(now[k], size, b, l, key, index)
  }

  lemma DeletingStep(h0: seq<Image>, h1: seq<Image>, h2: seq<Image>, size: nat, b: nat, l: Log, m: Log, i: nat, key: u16, index: int)
    requires DeletingSince(h0, h1, size, b, l, key, index) && BootingSince(h1, h2, size, b, m)
    requires i <= |l| && Partly(l, m, i, key, index)
    ensures DeletingSince(h0, h2, size, b, l, key, index)
  {
    hide Boots, Partly;
    forall k | |h0| <= k < |h2| ensures DeleteStage(h2[k], size, b, l, key, index) {
      if k < |h1| {
        assert h2[k] == h1[k];
      } else {
        assert Boots(h2[k], size, b, m);
      }
    }
  }

  lemma PartlyWf(l: Log, m: Log, i: nat, key: u16, index: int)
    requires AllWf(l) && Partly(l, m, i, key, index)
    ensures AllWf(m)
  {
    forall j | 0 <= j < |m| ensures m[j].Wf() {
      assert l[j].Wf();
    }
  }

  /** The visible list behind the records already done: as before, or with the element removed, or for -1 what is left of it. */
  ghost predicate Thinned(v: seq<nat>, w: seq<nat>, index: int) {
    if index == ALL then |w| <= |v| && w == v[|v| - |w|..] else w == v || w == RemoveAt(v, index)
  }

  lemma {:induction false} PartlyVisible(l: Log, m: Log, i: nat, n: nat, key: u16, index: int)
    requires i <= n <= |l| && Partly(l, m, i, key, index)
    ensures Thinned(Visible(l, n, key), Visible(m, n, key), index)
    decreases n
  {
    if n == i {
      var d := Delete(l, key, index);
      VisiblePrefix(m, d, n, key);
      DeleteVisible(l, n, key, index);
    } else {
      PartlyVisible(l, m, i, n - 1, key, index);
      assert m[n - 1] == l[n - 1];
      ThinnedStep(Visible(l, n - 1, key), Visible(m, n - 1, key), n - 1, l[n - 1], key, index);
    }
  }

  lemma ThinnedStep(v: seq<nat>, w: seq<nat>, j: nat, r: Rec, key: u16, index: int)
    requires Thinned(v, w, index)
    ensures Thinned(Extend(v, j, r, key), Extend(w, j, r, key), index)
  {
    if r.key == key && !r.Index0() {
      if r.Live() {
        RemoveLast(v, j, index);
      } else {
        assert v + [] == v && w + [] == w;
      }
    }
  }

  /**
   * A power cut anywhere in a delete leaves every other key alone, and its own key's list as it was or without the
   * element; of a list being emptied, some last stretch.
   */
  lemma PowerCutInDelete(s: Image, size: nat, b: nat, l: Log, key: u16, index: int, other: u16) returns (m: Log)
    requires DeleteStage(s, size, b, l, key, index) && AllWf(l)
    ensures Boots(s, size, b, m) && AllWf(m)
    ensures other != key ==> List(m, other) == List(l, other) && (Shape(l, other) ==> Shape(m, other))
    ensures index != ALL ==> List(m, key) == List(l, key) || List(m, key) == RemoveAt(List(l, key), index)
    ensures index == ALL ==> |List(m, key)| <= |List(l, key)| && List(m, key) == List(l, key)[|List(l, key)| - |List(m, key)|..]
  {
    hide Boots;
    var i: nat;
    m, i :| i <= |l| && Boots(s, size, b, m) && Partly(l, m, i, key, index);
    PartlyWf(l, m, i, key, index);
    if other != key {
      OtherKeyStays(l, m, i, key, index, other);
    }
    var v, w := Visible(l, |l|, key), Visible(m, |m|, key);
    PartlyVisible(l, m, i, |l|, key, index);
    SameValues(m, l, w);
    RemoveValue(l, v, index);
  }

  lemma OtherKeyStays(l: Log, m: Log, i: nat, key: u16, index: int, other: u16)
    requires AllWf(l) && AllWf(m) && i <= |l| && Partly(l, m, i, key, index) && other != key
    ensures List(m, other) == List(l, other) && (Shape(l, other) ==> Shape(m, other))
  {
    VisiblePrefix(m, l, |l|, other);
    SameValues(m, l, Visible(l, |l|, other));
    if Shape(l, other) {
      forall j, k | 0 <= j < |m| && 0 <= k < |m| && Hides(m, other, j, k) ensures Superseded(m, j) {
        assert Hides(l, other, j, k);
        var x :| 0 <= x < |l| && Supersedes(l, j, x);
        assert Supersedes(m, j, x);
      }
    }
  }

  /**
   * Between the two writes of a Delete(0), element 0 gone and element 1 not yet promoted, the key is in shape exactly if
   * no superseded group of it has a second live record.
   */
  lemma CutBeforePromotion(l: Log, m: Log, i: nat, key: u16)
    requires Shape(l, key) && i <= |l| && Partly(l, m, i, key, 0)
    requires var v := Visible(l, |l|, key); v != [] && v[0] < i && (|v| > 1 ==> i <= v[1])
    ensures Shape(m, key) <==> !SupersededPair(l, key)
  {
    hide Shape, Visible, SupersededPair, IndexAt;
    var d, g := Delete(l, key, 0), LastGroup(l, |l|, key);
    HeadDone(l, i, key);
    ShapeByLastGroup(m, key);
    SupersededLeft(l, key);
    forall j | 0 <= j < g ensures m[j] == d[j] {
      assert d[j] == AfterDelete(l, j, key, 0);
    }
    if g > 0 { DeletedAt(l, key, g - 1); UnpromotedHead(l, key); }
    CutLastGroup(l, m, i, key);
  }

  lemma CutLastGroup(l: Log, m: Log, i: nat, key: u16)
    requires i <= |l| && Partly(l, m, i, key, 0) && LastGroup(l, |l|, key) <= i
    requires var v := Visible(l, |l|, key); |v| > 1 ==> i <= v[1]
    ensures LastGroup(m, |m|, key) == LastGroup(l, |l|, key)
  {
    hide Visible, IndexAt;
    var g := LastGroup(l, |l|, key);
    forall j | g <= j < |m| && m[j].key == key ensures !m[j].Index0() {
      TailUnmarked(l, m, i, key, j);
    }
    if g > 0 {
      DeletedAt(l, key, g - 1);
      assert m[g - 1] == AfterDelete(l, g - 1, key, 0) == Delete(l, key, 0)[g - 1];
    }
    LastGroupIs(m, |m|, key, g);
  }

  /** The first visible record is not ahead of the last group. */
  lemma HeadDone(l: Log, i: nat, key: u16)
    requires var v := Visible(l, |l|, key); v != [] && v[0] < i
    ensures LastGroup(l, |l|, key) <= i
  {
    VisibleGroup(l, |l|, key);
    var v := Visible(l, |l|, key);
    assert LastGroup(l, |l|, key) - 1 <= v[0];
  }

  lemma TailUnmarked(l: Log, m: Log, i: nat, key: u16, j: nat)
    requires Partly(l, m, i, key, 0) && LastGroup(l, |l|, key) <= j < |l| && m[j].key == key
    requires var v := Visible(l, |l|, key); |v| > 1 ==> i <= v[1]
    ensures !m[j].Index0()
  {
    VisibleGroup(l, |l|, key);
    if j < i {
      assert m[j] == AfterDelete(l, j, key, 0);
      assert l[j].Live() ==> IndexAt(l, j, key) != 1;
    }
  }

  /* ---- start-up ---- */

  /**
   * Where the chain of begun headers from `used` on ends in the area at `b` of any image at all. The second word of a
   * header in the last word of the device cannot be read, but ends the chain whatever it is.
   */
  function Walk(img: Image, b: nat, size: nat, used: nat): (end: nat)
    decreases size - used
  {
    var p := b + used;
    if used >= size || p + 4 > |img| || img[p + 2] % 2 == 1 then used
    else if p + HEADER > |img| then used + HEADER
    else Walk(img, b, size, used + HEADER + AlignLength(LengthAt(img, p)))
  }

  function LengthAt(img: Image, p: nat): u16
    requires p + HEADER <= |img|
  {
    img[p + 4] as int + 256 * img[p + 5] as int
  }

  /** The cursor is where the walk ends, or both have left the area. */
  predicate Reached(used: nat, walk: nat, size: nat) { used == walk || (used > size && walk > size) }

  lemma CursorRoom(used: nat, size: nat)
    requires used % 4 == 0 && size % 4 == 0 && used < size
    ensures used + 4 <= size
  {}

  lemma WalkEnds(img: Image, b: nat, size: nat, used: nat)
    requires used >= size || (b + used + 4 <= |img| && img[b + used + 2] % 2 == 1)
    ensures Walk(img, b, size, used) == used
  {}

  /** The walk goes on as long as it is inside the area and the header there is begun. */
  lemma {:induction false} WalkStops(img: Image, b: nat, size: nat, used: nat)
    ensures var w := Walk(img, b, size, used); used <= w && (w >= size || b + w + 4 > |img| || img[b + w + 2] % 2 == 1)
    decreases size - used
  {
    var p := b + used;
    if used < size && p + HEADER <= |img| && img[p + 2] % 2 == 0 {
      WalkStops(img, b, size, used + HEADER + AlignLength(LengthAt(img, p)));
    }
  }

  /** One step of the walk, with whatever length was read. */
  lemma WalkOnce(img: Image, b: nat, size: nat, used: nat, len: u16)
    requires used % 4 == 0 && used + 4 <= size && b + size <= |img| && img[b + used + 2] % 2 == 0
    requires b + used + HEADER <= |img| ==> len == LengthAt(img, b + used)
    ensures (used + AlignLength(len) + HEADER) % 4 == 0
    ensures Reached(Walk(img, b, size, used + AlignLength(len) + HEADER), Walk(img, b, size, used), size)
  {
    AlignedLength(len);
  }

  /** Behind the last record the flag octet is erased, so the start-up scan stops there. */
  lemma ScanStops(img: Image, size: nat, b: nat, log: Log)
    requires Boots(img, size, b, log) && size % 4 == 0
    ensures End(log) < size ==> b + End(log) + 4 <= b + size && img[b + End(log) + 2] == 0xFF
  {
    OffAligned(log, |log|);
  }

  /** On an image that boots the chain ends with the log. */
  lemma {:induction false} WalkLog(img: Image, size: nat, b: nat, log: Log, i: nat)
    requires Boots(img, size, b, log) && size % 4 == 0 && i <= |log|
    ensures Walk(img, b, size, FLAG_SIZE + Off(log, i)) == End(log)
    decreases |log| - i
  {
    hide Area, LengthAt, Off;
    BootsLog(img, size, b, log);
    if i < |log| {
      WalkStep(img, size, b, log, i);
      WalkLog(img, size, b, log, i + 1);
    } else {
      ScanStops(img, size, b, log);
    }
  }

  lemma WalkStep(img: Image, size: nat, b: nat, log: Log, i: nat)
    requires Boots(img, size, b, log) && i < |log|
    ensures Walk(img, b, size, FLAG_SIZE + Off(log, i)) == Walk(img, b, size, FLAG_SIZE + Off(log, i + 1))
  {
    hide Boots, RecordsAt, AllWf, Off, LengthAt;
    BootsLog(img, size, b, log);
    BootsRecords(img, size, b, log);
    HeaderBegun(img, b, log, i);
    OffMono(log, i, |log|);
  }

  lemma BootsRecords(img: Image, size: nat, b: nat, log: Log)
    requires Boots(img, size, b, log)
    ensures RecordsAt(img, b, log) && b + size <= |img|
  {}

  lemma HeaderBegun(img: Image, b: nat, log: Log, i: nat)
    requires RecordsAt(img, b, log) && AllWf(log) && i < |log|
    ensures var p := Position(b, log, i);
            && p + HEADER <= |img| && img[p + 2] % 2 == 0
            && Position(b, log, i + 1) == p + HEADER + AlignLength(LengthAt(img, p))
  {
    var p := Position(b, log, i);
    assert RecordAt(img, b, log, i) && log[i].Wf();
    HeaderAt(img, p, log[i]);
  }

  lemma CursorFound(img: Image, size: nat, b: nat, log: Log, used: nat)
    requires Boots(img, size, b, log) && size % 4 == 0 && Reached(used, Walk(img, b, size, FLAG_SIZE), size)
    ensures used == End(log)
  {
    hide Walk, Boots;
    WalkLog(img, size, b, log, 0);
    BootsLog(img, size, b, log);
  }

  lemma BootsSelects(img: Image, size: nat, b: nat, log: Log)
    requires Boots(img, size, b, log)
    ensures b == (if At(img, 0, IN_USE) then 0 else size) && At(img, b, IN_USE)
  {}

  lemma FreshArea(img: Image, s: Image, size: nat, b: nat)
    requires |img| == 2 * size && FLAG_SIZE <= size && (b == 0 || b == size) && Formatted(s, img, b, size, IN_USE)
    requires b == size ==> !At(img, 0, IN_USE)
    ensures Boots(s, size, b, [])
  {
    if b == size { assert s[0..4] == img[0..4]; }
  }
}
