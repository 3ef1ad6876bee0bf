/** Circular time on a 32-bit millisecond clock, and sorted insertion under wrap-around. */
module TaskletTime {

  const WRAP := 0x1_0000_0000
  const HALF := 0x8000_0000

  type Time = x: int | 0 <= x < 0x1_0000_0000

  /** `b - a` in 32-bit arithmetic. */
  function Delta(a: Time, b: Time): Time { if b >= a then b - a else b - a + WRAP }

  /** How far `future` is ahead of `start`, or 0 if it is not ahead. */
  function TimeToEvent(start: Time, future: Time): Time {
    if Delta(start, future) >= HALF then 0 else Delta(start, future)
  }

  /** The sign of the circular difference. */
  function Compare(a: Time, b: Time): int {
    if Delta(b, a) == 0 then 0 else if Delta(b, a) >= HALF then -1 else 1
  }

  /** The clock reads `now` at the true time `t`. */
  predicate Reads(now: Time, t: nat) { now == t % 0x1_0000_0000 }

  /** Readings less than a period apart give the true time between them. */
  lemma TrueDelta(a: Time, b: Time, t: nat, u: nat)
    requires Reads(a, t) && Reads(b, u) && t <= u < t + 0x1_0000_0000
    ensures Delta(a, b) == u - t
  {}

  /** For true times less than half a period apart, both comparisons are right, wherever the clock wraps. */
  lemma TrueTimes(t: nat, u: nat)
    requires t < u + 0x8000_0000 && u < t + 0x8000_0000
    ensures TimeToEvent(t % 0x1_0000_0000, u % 0x1_0000_0000) == if t < u then u - t else 0
    ensures Compare(t % 0x1_0000_0000, u % 0x1_0000_0000) == if t < u then -1 else if t == u then 0 else 1
  {
    var a: Time, b: Time := t % 0x1_0000_0000, u % 0x1_0000_0000;
    if t <= u {
      TrueDelta(a, b, t, u);
      OppositeDelta(a, b);
    } else {
      TrueDelta(b, a, u, t);
      OppositeDelta(a, b);
    }
  }

  lemma OppositeDelta(a: Time, b: Time)
    ensures Delta(b, a) == if Delta(a, b) == 0 then 0 else 0x1_0000_0000 - Delta(a, b)
  {}

  /** All times lie in the half circle that starts at `w`. */
  predicate InWindow(w: Time, times: seq<Time>) {
    forall i :: 0 <= i < |times| ==> Delta(w, times[i]) < HALF
  }

  /** Inside one window, circular comparison is comparison of the distances from its start. */
  lemma WindowOrder(w: Time, a: Time, b: Time)
    requires Delta(w, a) < HALF && Delta(w, b) < HALF
    ensures TimeToEvent(a, b) == if Delta(w, a) < Delta(w, b) then Delta(w, b) - Delta(w, a) else 0
    ensures Compare(a, b) == if Delta(w, a) < Delta(w, b) then -1 else if Delta(w, a) == Delta(w, b) then 0 else 1
  {}

  predicate Sorted(w: Time, times: seq<Time>) {
    forall i, j :: 0 <= i < j < |times| ==> Delta(w, times[i]) <= Delta(w, times[j])
  }

  /** Where the insertion scan stops: at the first time not strictly before `t`. */
  function Place(times: seq<Time>, t: Time): (k: nat)
    ensures k <= |times|
    ensures forall i :: 0 <= i < k ==> TimeToEvent(times[i], t) != 0
    ensures k < |times| ==> TimeToEvent(times[k], t) == 0
  {
    if times == [] || TimeToEvent(times[0], t) == 0 then 0 else 1 + Place(times[1..], t)
  }

  function Insert<T>(s: seq<T>, k: nat, x: T): seq<T>
    requires k <= |s|
  {
    s[..k] + [x] + s[k..]
  }

  function Without<T>(s: seq<T>, k: nat): seq<T>
    requires k < |s|
  {
    s[..k] + s[k + 1..]
  }

  lemma PlaceSplits(w: Time, times: seq<Time>, t: Time)
    requires InWindow(w, times) && Delta(w, t) < HALF && Sorted(w, times)
    ensures forall i :: 0 <= i < |times| ==> (i < Place(times, t) <==> Delta(w, times[i]) < Delta(w, t))
  {
    var k := Place(times, t);
    forall i | 0 <= i < |times| ensures i < k <==> Delta(w, times[i]) < Delta(w, t) {
      WindowOrder(w, times[i], t);
      if k < |times| { WindowOrder(w, times[k], t); }
    }
  }

  lemma InsertSorted(w: Time, times: seq<Time>, k: nat, t: Time)
    requires InWindow(w, times) && Delta(w, t) < HALF && Sorted(w, times) && k <= |times|
    requires forall i :: 0 <= i < |times| ==> (i < k <==> Delta(w, times[i]) < Delta(w, t))
    ensures InWindow(w, Insert(times, k, t)) && Sorted(w, Insert(times, k, t))
  {
    var s := Insert(times, k, t);
    assert forall i :: 0 <= i < |s| ==> s[i] == if i < k then times[i] else if i == k then t else times[i - 1];
  }

  /** The scan stops behind exactly the strictly earlier times, so equal times end up behind the new one, and order is kept. */
  lemma PlaceSorts(w: Time, times: seq<Time>, t: Time)
    requires InWindow(w, times) && Delta(w, t) < HALF && Sorted(w, times)
    ensures var k := Place(times, t);
            && (forall i :: 0 <= i < |times| ==> (i < k <==> Delta(w, times[i]) < Delta(w, t)))
            && InWindow(w, Insert(times, k, t)) && Sorted(w, Insert(times, k, t))
  {
    PlaceSplits(w, times, t);
    InsertSorted(w, times, Place(times, t), t);
  }

  /** How many times are due at `now`. */
  function DueCount(times: seq<Time>, now: Time): (d: nat)
    ensures d <= |times|
    ensures forall i :: 0 <= i < d ==> TimeToEvent(now, times[i]) == 0
    ensures d < |times| ==> TimeToEvent(now, times[d]) != 0
  {
    if times == [] || TimeToEvent(now, times[0]) != 0 then 0 else 1 + DueCount(times[1..], now)
  }

  /** In a sorted window the due times are a prefix: those not later than `now`. */
  lemma DuePrefix(w: Time, times: seq<Time>, now: Time)
    requires InWindow(w, times) && Sorted(w, times) && Delta(w, now) < HALF
    ensures forall i :: 0 <= i < |times| ==> (i < DueCount(times, now) <==> Delta(w, times[i]) <= Delta(w, now))
  {
    var d := DueCount(times, now);
    forall i | 0 <= i < |times| ensures i < d <==> Delta(w, times[i]) <= Delta(w, now) {
      WindowOrder(w, now, times[i]);
      if d < |times| { WindowOrder(w, now, times[d]); }
    }
  }

  /** A sorted window of times of which exactly the first `p` are due at `now`. */
  ghost predicate Timely(w: Time, times: seq<Time>, now: Time, p: nat) {
    && InWindow(w, times) && Sorted(w, times) && p <= |times|
    && forall i :: 0 <= i < |times| ==> (i < p <==> Delta(w, times[i]) <= Delta(w, now))
  }

  lemma TimelyStart(w: Time, times: seq<Time>, now: Time)
    requires InWindow(w, times) && Sorted(w, times) && Delta(w, now) < HALF
    ensures Timely(w, times, now, DueCount(times, now))
  {
    DuePrefix(w, times, now);
  }

  lemma TimelyFirst(w: Time, times: seq<Time>, now: Time, p: nat)
    requires Timely(w, times, now, p) && times != [] && Delta(w, now) < HALF
    ensures TimeToEvent(now, times[0]) == 0 <==> p > 0
    ensures p > 0 ==> Timely(w, times[1..], now, p - 1)
  {
    WindowOrder(w, now, times[0]);
  }

  lemma TimelyPlace(w: Time, times: seq<Time>, now: Time, p: nat, t: Time)
    requires Timely(w, times, now, p) && Delta(w, t) < HALF && Delta(w, now) < Delta(w, t)
    ensures p <= Place(times, t)
  {
    PlaceSplits(w, times, t);
    var k := Place(times, t);
    var stop := if k < |times| then times[k] else t;
    assert k < |times| ==> Delta(w, stop) >= Delta(w, t);
  }

  lemma DueAfterInsert(w: Time, times: seq<Time>, now: Time, p: nat, t: Time, k: nat, s: seq<Time>)
    requires p <= k <= |times| && s == Insert(times, k, t) && Delta(w, now) < Delta(w, t)
    requires forall i :: 0 <= i < |times| ==> (i < p <==> Delta(w, times[i]) <= Delta(w, now))
    ensures forall i :: 0 <= i < |s| ==> (i < p <==> Delta(w, s[i]) <= Delta(w, now))
  {
    forall i | 0 <= i < |s| ensures i < p <==> Delta(w, s[i]) <= Delta(w, now) {
      assert s[i] == if i < k then times[i] else if i == k then t else times[i - 1];
    }
  }

  /** A strictly later time goes in behind everything due. */
  lemma TimelyInsert(w: Time, times: seq<Time>, now: Time, p: nat, t: Time)
    requires Timely(w, times, now, p) && Delta(w, t) < HALF && Delta(w, now) < Delta(w, t)
    ensures p <= Place(times, t) && Timely(w, Insert(times, Place(times, t), t), now, p)
  {
    var k := Place(times, t);
    TimelyPlace(w, times, now, p, t);
    PlaceSorts(w, times, t);
    DueAfterInsert(w, times, now, p, t, k, Insert(times, k, t));
  }

  /** Taking one out leaves the others due or not. */
  lemma TimelyRemove(w: Time, times: seq<Time>, now: Time, p: nat, k: nat)
    requires Timely(w, times, now, p) && k < |times|
    ensures Timely(w, Without(times, k), now, if k < p then p - 1 else p)
  {
    var s, q := Without(times, k), if k < p then p - 1 else p;
    assert forall i :: 0 <= i < |s| ==> s[i] == if i < k then times[i] else times[i + 1];
    forall i | 0 <= i < |s| ensures i < q <==> Delta(w, s[i]) <= Delta(w, now) {
      var j := if i < k then i else i + 1;
      assert s[i] == times[j] && (i < q <==> j < p);
    }
  }
}
