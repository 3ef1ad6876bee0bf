/** What the start-up code recovers from a flash image, and the image changes that leave it alone. */
module BootImage {
  import opened Bytes
  import opened SettingsLog
  import opened FlashImage
  import opened Compaction

  /** Start-up on `img` (two areas of `size` octets) selects the area at `b`, which holds exactly `log`. */
  ghost predicate Boots(img: Image, size: nat, b: nat, log: Log) {
    && size >= FLAG_SIZE && |img| == 2 * size
    && (b == 0 || b == size)
    && Area(img, b, size, IN_USE, log)
    && (b == size ==> !At(img, 0, IN_USE))   // area 0 is probed first
  }

  /** An image determines the area and the log that start-up recovers. */
  lemma BootsUnique(img: Image, size: nat, b: nat, l: Log, c: nat, m: Log)
    requires Boots(img, size, b, l) && Boots(img, size, c, m)
    ensures b == c && l == m
  {
    if b == c { LogUnique(img, b, size, IN_USE, l, m); }
  }

  lemma AreaLocal(img: Image, other: Image, b: nat, size: nat, w: seq<byte>, log: Log)
    requires Area(img, b, size, w, log) && |other| == |img| && b + size <= |img|
    requires forall i :: b <= i < b + size ==> other[i] == img[i]
    requires |w| <= size
    ensures Area(other, b, size, w, log)
  {
    AtLocal(img, other, b, w);
    forall i | 0 <= i < |log| ensures RecordAt(other, b, log, i) {
      assert RecordAt(img, b, log, i);
      OffMono(log, i, |log|);
      AtLocal(img, other, b + FLAG_SIZE + Off(log, i), log[i].Bytes());
    }
  }

  lemma AtLocal(img: Image, other: Image, p: nat, s: seq<byte>)
    requires At(img, p, s) && |other| == |img|
    requires forall i :: p <= i < p + |s| ==> other[i] == img[i]
    ensures At(other, p, s)
  {}

  /** Changes confined to the other area, which must not start to look in use ahead of ours, do not disturb a boot. */
  lemma BootsElsewhere(img: Image, other: Image, size: nat, b: nat, log: Log)
    requires Boots(img, size, b, log)
    requires SameOutside(other, img, size - b, 2 * size - b)
    requires b == size ==> !At(other, 0, IN_USE)
    ensures Boots(other, size, b, log)
  {
    AreaLocal(img, other, b, size, IN_USE, log);
  }

  /** Changes confined to one area leave the other's flag word alone. */
  lemma OtherFlag(img: Image, other: Image, size: nat, lo: nat, hi: nat)
    requires |img| == 2 * size && size >= FLAG_SIZE && SameOutside(other, img, lo, hi) && lo >= FLAG_SIZE
    ensures At(other, 0, IN_USE) <==> At(img, 0, IN_USE)
  {
    assert other[0..4] == img[0..4];
  }

  /** Writing one more record behind the log extends the area's log by that record. */
  lemma AreaAppend(img: Image, other: Image, b: nat, size: nat, w: seq<byte>, log: Log, r: Rec)
    requires Area(img, b, size, w, log) && r.Wf() && End(log) + r.Size() <= size && |w| == FLAG_SIZE
    requires SameOutside(other, img, b + End(log), b + End(log) + r.Size())
    requires At(other, b + End(log), r.Bytes())
    ensures Area(other, b, size, w, log + [r])
  {
    var l := log + [r];
    OffAppend(log, r);
    AtLocal(img, other, b, w);
    forall i | 0 <= i < |l| ensures l[i].Wf() {
      if i < |log| { assert log[i].Wf(); }
    }
    forall i | 0 <= i < |l| ensures RecordAt(other, b, l, i) {
      if i < |log| {
        assert RecordAt(img, b, log, i);
        OffMono(log, i, |log|);
        AtLocal(img, other, b + FLAG_SIZE + Off(log, i), log[i].Bytes());
      }
    }
  }

  lemma RecordUpdate(img: Image, other: Image, b: nat, log: Log, i: nat, r: Rec, k: nat)
    requires i < |log| && k < |log| && RecordAt(img, b, log, k) && r.body == log[i].body
    requires var p := b + FLAG_SIZE + Off(log, i); SameOutside(other, img, p, p + HEADER) && At(other, p, r.Header())
    ensures RecordAt(other, b, log[i := r], k)
  {
    OffSame(log, log[i := r], k);
    if k == i {
      BodyStays(img, other, b + FLAG_SIZE + Off(log, i), log[i], r);
    } else {
      if k < i { OffMono(log, k, i); } else { OffMono(log, i, k); }
      AtLocal(img, other, b + FLAG_SIZE + Off(log, k), log[k].Bytes());
    }
  }

  /** Rewriting the header of record `i` in place changes that record only. */
  lemma AreaUpdate(img: Image, other: Image, b: nat, size: nat, w: seq<byte>, log: Log, i: nat, r: Rec)
    requires Area(img, b, size, w, log) && i < |log| && |w| == FLAG_SIZE
    requires r.Wf() && r.body == log[i].body
    requires var p := b + FLAG_SIZE + Off(log, i); SameOutside(other, img, p, p + HEADER) && At(other, p, r.Header())
    ensures Area(other, b, size, w, log[i := r])
  {
    var l := log[i := r];
    OffSame(log, l, |log|);
    AtLocal(img, other, b, w);
    OffMono(log, i, |log|);
    forall k | 0 <= k < |l| ensures l[k].Wf() {
      if k != i { assert log[k].Wf(); }
    }
    forall k | 0 <= k < |l| ensures RecordAt(other, b, l, k) {
      assert RecordAt(img, b, log, k);
      RecordUpdate(img, other, b, log, i, r, k);
    }
  }

  lemma BodyStays(img: Image, other: Image, p: nat, r: Rec, s: Rec)
    requires At(img, p, r.Bytes()) && s.body == r.body && SameOutside(other, img, p, p + HEADER) && At(other, p, s.Header())
    ensures At(other, p, s.Bytes())
  {
    var n := HEADER + |r.body|;
    assert img[p..p + n][HEADER..] == r.Bytes()[HEADER..] == r.body;
    assert other[p + HEADER..p + n] == img[p + HEADER..p + n];
    assert other[p..p + n] == other[p..p + HEADER] + other[p + HEADER..p + n];
  }
}
