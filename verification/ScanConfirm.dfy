/** The scan-confirm result list: the in-place quality filter and the independent walker. */
module ScanConfirm {

  const PLAIN := 22          // octets of a descriptor without security
  const SECURED := 32        // and with
  const LINK_QUALITY := 15   // offsets in a descriptor
  const SECURITY_LEVEL := 21
  const LIST_OFFSET := 7     // octets of the parameter set ahead of the list
  const LQI_LIMIT := 75

  type octet = x: int | 0 <= x < 0x100

  datatype ScanType = EnergyScan | ActiveScan | PassiveScan | OrphanScan
  datatype LqiMode = ModeCS | ModeED
  datatype Status = Success | LimitReached | NoBeacon | Other(code: nat)

  type Descriptor = seq<octet>

  /** A descriptor carries the security fields exactly when its security level is not 0. */
  predicate Formed(d: Descriptor) {
    |d| >= PLAIN && |d| == if d[SECURITY_LEVEL] > 0 then SECURED else PLAIN
  }

  lemma FormedExact(d: Descriptor)
    ensures Formed(d) <==> (|d| == 22 && d[21] == 0) || (|d| == 32 && d[21] > 0)
  {}

  ghost predicate AllFormed(ds: seq<Descriptor>) { forall i :: 0 <= i < |ds| ==> Formed(ds[i]) }

  function Flatten(ds: seq<Descriptor>): seq<octet> {
    if ds == [] then [] else ds[0] + Flatten(ds[1..])
  }

  predicate Acceptable(d: Descriptor)
    requires Formed(d)
  {
    d[LINK_QUALITY] > LQI_LIMIT
  }

  /** The descriptors of acceptable quality, in order. */
  function Filter(ds: seq<Descriptor>): (f: seq<Descriptor>)
    requires AllFormed(ds)
    ensures AllFormed(f) && |f| <= |ds|
  {
    if ds == [] then [] else if Acceptable(ds[0]) then [ds[0]] + Filter(ds[1..]) else Filter(ds[1..])
  }

  /** A descriptor is kept exactly if its link quality is above 75, and where it stands does not matter. */
  lemma FilterOne(d: Descriptor)
    requires Formed(d)
    ensures Filter([d]) == if d[15] > 75 then [d] else []
  {
    assert [d][1..] == [];
  }

  lemma {:induction false} FilterJoin(a: seq<Descriptor>, b: seq<Descriptor>)
    requires AllFormed(a) && AllFormed(b)
    ensures AllFormed(a + b) && Filter(a + b) == Filter(a) + Filter(b)
    decreases |a|
  {
    if a == [] {
      assert a + b == b;
    } else {
      assert AllFormed(a[1..]) && Formed(a[0]);
      FilterJoin(a[1..], b);
      assert (a + b)[1..] == a[1..] + b;
    }
  }

  /** So in the list after filtering every descriptor is good, and every good one is still there as often as before. */
  lemma {:induction false} FilterExact(ds: seq<Descriptor>, d: Descriptor)
    requires AllFormed(ds) && Formed(d)
    ensures multiset(Filter(ds))[d] == if d[15] > 75 then multiset(ds)[d] else 0
    decreases |ds|
  {
    if ds != [] {
      assert AllFormed(ds[1..]) && Formed(ds[0]);
      FilterExact(ds[1..], d);
      assert ds == [ds[0]] + ds[1..];
    }
  }

  lemma {:induction false} FlattenAppend(a: seq<Descriptor>, d: Descriptor)
    ensures Flatten(a + [d]) == Flatten(a) + d
    decreases |a|
  {
    if a == [] {
      assert Flatten([d]) == d + Flatten([]);
    } else {
      assert (a + [d])[1..] == a[1..] + [d];
      FlattenAppend(a[1..], d);
    }
  }

  /** The octets hold the descriptors from `at` on. */
  predicate Holds(s: seq<octet>, at: nat, ds: seq<Descriptor>) {
    at + |Flatten(ds)| <= |s| && s[at..at + |Flatten(ds)|] == Flatten(ds)
  }

  lemma HoldsFirst(s: seq<octet>, at: nat, ds: seq<Descriptor>)
    requires Holds(s, at, ds) && ds != []
    ensures at + |ds[0]| <= |s| && s[at..at + |ds[0]|] == ds[0] && Holds(s, at + |ds[0]|, ds[1..])
  {
    var n := |Flatten(ds)|;
    assert s[at..at + n][..|ds[0]|] == ds[0];
    assert s[at..at + n][|ds[0]|..] == Flatten(ds[1..]);
  }

  lemma SizeAt(s: seq<octet>, at: nat, ds: seq<Descriptor>)
    requires Holds(s, at, ds) && ds != [] && AllFormed(ds)
    ensures at + PLAIN <= |s| && s[at + SECURITY_LEVEL] == ds[0][SECURITY_LEVEL] && s[at + LINK_QUALITY] == ds[0][LINK_QUALITY]
  {
    HoldsFirst(s, at, ds);
    assert Formed(ds[0]);
    assert s[at..at + |ds[0]|][SECURITY_LEVEL] == ds[0][SECURITY_LEVEL];
    assert s[at..at + |ds[0]|][LINK_QUALITY] == ds[0][LINK_QUALITY];
  }

  /** `t` is `s` with the `count` octets from `src` on copied to `dst`. */
  predicate Moved(s: seq<octet>, t: seq<octet>, dst: nat, src: nat, count: nat) {
    && |t| == |s| && dst <= src && src + count <= |s|
    && forall i {:trigger t[i]} :: 0 <= i < |s| ==> t[i] == if dst <= i < dst + count then s[i + (src - dst)] else s[i]
  }

  lemma MovedSlices(s: seq<octet>, t: seq<octet>, dst: nat, src: nat, count: nat, m: nat)
    requires Moved(s, t, dst, src, count) && m <= count
    ensures t[0..dst] == s[0..dst] && t[dst..dst + m] == s[src..src + m]
  {
    var a, b := t[dst..dst + m], s[src..src + m];
    forall i | 0 <= i < m ensures a[i] == b[i] {
      assert a[i] == t[dst + i];
    }
  }

  /** Moving the octets behind the first descriptor down over it leaves the earlier and the later descriptors. */
  lemma GapClosed(s: seq<octet>, t: seq<octet>, kept: seq<Descriptor>, rest: seq<Descriptor>, at: nat, size: nat, count: nat)
    requires Holds(s, 0, kept) && at == |Flatten(kept)| && Holds(s, at, rest) && rest != [] && size == |rest[0]|
    requires |Flatten(rest[1..])| <= count && Moved(s, t, at, at + size, count)
    ensures Holds(t, 0, kept) && Holds(t, at, rest[1..])
  {
    HoldsFirst(s, at, rest);
    MovedSlices(s, t, at, at + size, count, |Flatten(rest[1..])|);
  }

  lemma FormedStep(kept: seq<Descriptor>, rest: seq<Descriptor>)
    requires AllFormed(kept) && AllFormed(rest) && rest != []
    ensures AllFormed(rest[1..]) && Formed(rest[0]) && AllFormed(kept + [rest[0]])
  {}

  lemma FilterStep(kept: seq<Descriptor>, rest: seq<Descriptor>)
    requires AllFormed(rest) && rest != [] && Formed(rest[0]) && AllFormed(rest[1..])
    ensures Acceptable(rest[0]) ==> (kept + [rest[0]]) + Filter(rest[1..]) == kept + Filter(rest)
    ensures !Acceptable(rest[0]) ==> Filter(rest[1..]) == Filter(rest)
  {
    if Acceptable(rest[0]) {
      assert (kept + [rest[0]]) + Filter(rest[1..]) == kept + ([rest[0]] + Filter(rest[1..]));
    }
  }

  function Max(a: nat, b: nat): nat { if a < b then b else a }

  /**
   * How far the copies of the filter read into the buffer, with `at` octets kept and `rest` still to be looked at: each
   * removal copies as much behind the removed descriptor as the whole list is long without it.
   */
  function Slack(at: nat, rest: seq<Descriptor>): nat
    requires AllFormed(rest)
    decreases |rest|
  {
    if rest == [] then 0 else
    assert AllFormed(rest[1..]);
    if Acceptable(rest[0]) then Slack(at + |rest[0]|, rest[1..])
    else Max(at + at + |Flatten(rest)|, Slack(at, rest[1..]))
  }

  /** The copies never read further than twice the list. */
  lemma {:induction false} SlackBound(at: nat, rest: seq<Descriptor>)
    requires AllFormed(rest)
    ensures Slack(at, rest) <= 2 * (at + |Flatten(rest)|)
    decreases |rest|
  {
    if rest != [] {
      assert AllFormed(rest[1..]);
      assert Formed(rest[0]);
      SlackBound(if Acceptable(rest[0]) then at + |rest[0]| else at, rest[1..]);
    }
  }

  class Confirm {
    const list: array<octet>     // the result list and what follows it in the message buffer
    const scanType: ScanType
    var status: Status
    var resultListSize: nat
    var length: nat              // of the whole parameter set

    constructor (contents: seq<octet>, scanType: ScanType, status: Status, resultListSize: nat, length: nat)
      ensures list[..] == contents && fresh(list) && this.scanType == scanType
      ensures this.status == status && this.resultListSize == resultListSize && this.length == length
    {
      list := new octet[|contents|](i requires 0 <= i < |contents| => contents[i]);
      this.scanType, this.status, this.resultListSize, this.length := scanType, status, resultListSize, length;
    }

    /** The message carries exactly the descriptors `ds`. */
    ghost predicate Carries(ds: seq<Descriptor>)
      reads this, list
    {
      && AllFormed(ds) && Holds(list[..], 0, ds)
      && resultListSize == |ds| && length == LIST_OFFSET + |Flatten(ds)|
    }

    /** Copies octets towards the front, first octet first. */
    method CopyForward(dst: nat, src: nat, count: nat)
      requires dst < src && src + count <= list.Length
      modifies list
      ensures Moved(old(list[..]), list[..], dst, src, count)
    {
      for i := 0 to count
        invariant forall k :: 0 <= k < list.Length ==> list[k] == if dst <= k < dst + i then old(list[k + (src - dst)]) else old(list[k])
      {
        list[dst + i] := list[src + i];
      }
    }

    /** The state of the filter's loop: `kept` is done, `rest` is still to be looked at. */
    ghost predicate Filtering(at: nat, kept: seq<Descriptor>, rest: seq<Descriptor>)
      reads this, list
    {
      && AllFormed(kept) && AllFormed(rest)
      && Holds(list[..], 0, kept) && at == |Flatten(kept)| && Holds(list[..], at, rest)
      && resultListSize == |kept| + |rest| && length == LIST_OFFSET + at + |Flatten(rest)|
    }

    /** Closes the gap of the descriptor at `at`; the copy reads as far past the list as the list before it is long. */
    method RemoveFirst(at: nat, size: nat, ghost kept: seq<Descriptor>, ghost rest: seq<Descriptor>)
      requires Filtering(at, kept, rest) && rest != [] && size == |rest[0]| && at + (length - LIST_OFFSET) <= list.Length
      modifies list, this`resultListSize, this`length
      ensures Filtering(at, kept, rest[1..]) && length <= old(length)
    {
      ghost var s := list[..];
      FormedStep(kept, rest);
      var count := length - (LIST_OFFSET + size);
      assert count == at + |Flatten(rest[1..])|;
      CopyForward(at, at + size, count);
      GapClosed(s, list[..], kept, rest, at, size, count);
      resultListSize := resultListSize - 1;
      length := length - size;
    }

    /** One step of the filter: the first descriptor of `rest` is kept or removed. */
    method FilterNext(at: nat, ghost kept: seq<Descriptor>, ghost rest: seq<Descriptor>)
      returns (next: nat, keep: bool, ghost kept': seq<Descriptor>)
      requires Filtering(at, kept, rest) && rest != [] && Slack(at, rest) <= list.Length
      modifies list, this`resultListSize, this`length
      ensures Filtering(next, kept', rest[1..]) && Slack(next, rest[1..]) <= list.Length
      ensures kept' + Filter(rest[1..]) == kept + Filter(rest) && keep == Acceptable(rest[0])
      ensures kept' == if keep then kept + [rest[0]] else kept
    {
      var size;
      keep, size := Inspect(at, kept, rest);
      FormedStep(kept, rest);
      FilterStep(kept, rest);
      next, kept' := at, kept;
      if keep {
        FlattenAppend(kept, rest[0]);
        next, kept' := at + size, kept + [rest[0]];
      } else {
        RemoveFirst(at, size, kept, rest);
      }
    }

    /** Drops every descriptor of poor link quality, in place. The buffer must be readable as far as the copies go. */
    method VerifyResults(lqiMode: LqiMode, ghost ds: seq<Descriptor>)
      requires Carries(ds) && Slack(0, ds) <= list.Length
      modifies list, this`resultListSize, this`length, this`status
      ensures lqiMode == ModeED || (scanType != ActiveScan && scanType != PassiveScan) ==>
                Carries(ds) && list[..] == old(list[..]) && status == old(status)
      ensures lqiMode == ModeCS && (scanType == ActiveScan || scanType == PassiveScan) ==>
                && Carries(Filter(ds)) && resultListSize == |Filter(ds)| && length == 7 + |Flatten(Filter(ds))| <= 7 + list.Length
                && list[..|Flatten(Filter(ds))|] == Flatten(Filter(ds))
                && status == if ds != [] && Filter(ds) == [] && old(status) in {Success, LimitReached} then NoBeacon else old(status)
    {
      if lqiMode == ModeED {
        return;
      }
      if scanType != ActiveScan && scanType != PassiveScan {
        return;
      }
      var at, index, modified := 0, 0, false;
      ghost var kept, rest := [], ds;
      while index < resultListSize
        invariant index == |kept| && Filtering(at, kept, rest) && kept + Filter(rest) == Filter(ds)
        invariant Slack(at, rest) <= list.Length
        invariant |kept| + |rest| <= |ds| && (modified <==> |kept| + |rest| < |ds|)
        invariant status == old(status)
        decreases |rest|
      {
        var keep;
        at, keep, kept := FilterNext(at, kept, rest);
        rest := rest[1..];
        if keep {
          index := index + 1;
        } else {
          modified := true;
        }
      }
      assert rest == [] && kept == Filter(ds);
      if resultListSize == 0 && modified && (status == Success || status == LimitReached) {
        status := NoBeacon;
      }
    }

    /** Size and quality of the descriptor at `at`. */
    method Inspect(at: nat, ghost kept: seq<Descriptor>, ghost rest: seq<Descriptor>) returns (keep: bool, size: nat)
      requires Filtering(at, kept, rest) && rest != []
      ensures size == |rest[0]| && keep == Acceptable(rest[0])
      ensures at + size <= list.Length && Holds(list[..], at + size, rest[1..])
      ensures keep ==> Holds(list[..], 0, kept + [rest[0]])
    {
      SizeAt(list[..], at, rest);
      HoldsFirst(list[..], at, rest);
      FlattenAppend(kept, rest[0]);
      assert list[..][0..at + |rest[0]|] == list[..][0..at] + list[..][at..at + |rest[0]|];
      size := if list[at + SECURITY_LEVEL] > 0 then PLAIN + 10 else PLAIN;
      keep := list[at + LINK_QUALITY] > LQI_LIMIT;
    }

    /** The independent walker: the offset of descriptor `index`, if there is one. */
    method GetDescriptor(index: nat, ghost ds: seq<Descriptor>) returns (found: bool, at: nat)
      requires Carries(ds)
      ensures found <==> (scanType == ActiveScan || scanType == PassiveScan) && index < |ds|
      ensures found ==> at + |ds[index]| <= list.Length && list[at..at + |ds[index]|] == ds[index]
    {
      at := 0;
      found := (scanType == ActiveScan || scanType == PassiveScan) && index < resultListSize;
      if !found {
        return;
      }
      for i := 0 to index
        invariant Holds(list[..], at, ds[i..])
      {
        SizeAt(list[..], at, ds[i..]);
        HoldsFirst(list[..], at, ds[i..]);
        assert Formed(ds[i..][0]);
        assert ds[i..][1..] == ds[i + 1..];
        at := at + if list[at + SECURITY_LEVEL] == 0 then SECURITY_LEVEL + 1 else SECURED;
      }
      HoldsFirst(list[..], at, ds[index..]);
    }

    /** After filtering, the walker finds exactly the survivors, in order. */
    method FilterThenGet(index: nat, ghost ds: seq<Descriptor>) returns (found: bool, at: nat)
      requires Carries(ds) && Slack(0, ds) <= list.Length && (scanType == ActiveScan || scanType == PassiveScan)
      modifies list, this`resultListSize, this`length, this`status
      ensures found <==> index < |Filter(ds)|
      ensures found ==> at + |Filter(ds)[index]| <= list.Length && list[at..at + |Filter(ds)[index]|] == Filter(ds)[index]
    {
      VerifyResults(ModeCS, ds);
      found, at := GetDescriptor(index, Filter(ds));
    }
  }
}
