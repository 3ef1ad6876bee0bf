/** The table of outstanding data requests and its decaying timeouts. */
module RequestCache {

  const SIZE := 15
  const TIMEOUT := 500
  const WRAP := 0x1_0000_0000

  datatype Kind = Pcps | Mcps

  datatype Status = Success | NotFound | NoBuffer | Timeout

  datatype Item = Item(timeout: nat, handle: nat, indirect: bool, active: bool, kind: Kind)

  /** A generated confirm; its status is always a system error. */
  datatype Confirm = Confirm(kind: Kind, handle: nat)

  /** The 32-bit reading of the clock at the true time `t`. */
  function Clock(t: nat): nat { t % WRAP }

  /** `b - a` in 32-bit arithmetic. */
  function Delta(a: nat, b: nat): nat
    requires a < WRAP
  {
    if b >= a then b - a else b + WRAP - a
  }

  lemma DeltaIsTrue(before: nat, now: nat)
    requires before <= now < before + WRAP
    ensures Delta(Clock(before), Clock(now)) == now - before
  {}

  predicate Matches(item: Item, handle: nat, kind: Kind) { item.active && item.handle == handle && item.kind == kind }

  /** The first entry that matches, or the table's end. */
  function FirstMatch(items: seq<Item>, handle: nat, kind: Kind): (k: nat)
    ensures k <= |items| && (k < |items| ==> Matches(items[k], handle, kind))
    ensures forall i :: 0 <= i < k ==> !Matches(items[i], handle, kind)
  {
    if items == [] || Matches(items[0], handle, kind) then 0 else 1 + FirstMatch(items[1..], handle, kind)
  }

  function FirstFree(items: seq<Item>): (k: nat)
    ensures k <= |items| && (k < |items| ==> !items[k].active)
    ensures forall i :: 0 <= i < k ==> items[i].active
  {
    if items == [] || !items[0].active then 0 else 1 + FirstFree(items[1..])
  }

  /** One confirm for each active entry, in table order. */
  function ConfirmsOf(items: seq<Item>): seq<Confirm> {
    if items == [] then [] else
    (var last := items[|items| - 1];
     ConfirmsOf(items[..|items| - 1]) + if last.active then [Confirm(last.kind, last.handle)] else [])
  }

  predicate Direct(item: Item) { item.active && !item.indirect }

  function Aged(item: Item, delta: nat): Item
    requires Direct(item) ==> delta <= item.timeout
  {
    if Direct(item) then item.(timeout := item.timeout - delta) else item
  }

  /** The first direct request with less than `delta` left, or the table's end. */
  function FirstExpired(items: seq<Item>, delta: nat): (k: nat)
    ensures k <= |items| && (k < |items| ==> Direct(items[k]) && delta > items[k].timeout)
    ensures forall i :: 0 <= i < k && Direct(items[i]) ==> delta <= items[i].timeout
  {
    if items == [] || (Direct(items[0]) && delta > items[0].timeout) then 0 else 1 + FirstExpired(items[1..], delta)
  }

  class Cache {
    const items: array<Item>
    var prevTime: nat             // the clock reading at the last full decay
    var flushing: bool
    ghost var now: nat            // true time
    ghost var prev: nat           // true time of the last full decay
    ghost var added: seq<nat>     // true time at which each slot was last filled
    ghost var counted: seq<nat>   // true time of the last full decay before that
    ghost var uneven: bool        // a decay gave up half-way, and the table has not been emptied since

    constructor ()
      ensures Valid() && fresh(items) && now == 0 && !flushing && !uneven
      ensures forall i :: 0 <= i < SIZE ==> !items[i].active
    {
      items := new Item[SIZE](_ => Item(0, 0, false, false, Pcps));
      prevTime, flushing, now, prev := 0, false, 0, 0;
      added, counted, uneven := seq(SIZE, _ => 0), seq(SIZE, _ => 0), false;
    }

    /**
     * The allowance of a direct request runs from the last full decay before it was added, and exactly so unless a decay
     * gave up half-way.
     */
    ghost predicate Valid()
      reads this, items
    {
      && items.Length == SIZE == |added| == |counted| && prev <= now && prevTime == Clock(prev)
      && forall i :: 0 <= i < SIZE && items[i].active && !items[i].indirect ==>
           && counted[i] <= added[i] <= now && items[i].timeout + prev <= 500 + counted[i]
           && (!uneven ==> items[i].timeout + prev == 500 + counted[i])
    }

    /** A direct request is still tracked more than 500 ms after it was added. */
    ghost predicate Overdue()
      requires Valid()
      reads this, items
    {
      exists i :: 0 <= i < SIZE && items[i].active && !items[i].indirect && now - added[i] > 500
    }

    /** A direct request is still tracked more than 500 ms after its allowance began to run. */
    ghost predicate RunOut()
      requires Valid()
      reads this, items
    {
      exists i :: 0 <= i < SIZE && items[i].active && !items[i].indirect && now - counted[i] > 500
    }

    /** Time passes between calls. */
    ghost method Pass(t: nat)
      requires Valid()
      modifies this`now
      ensures Valid() && now == old(now) + t
    {
      now := now + t;
    }

    method AddItem(handle: nat, indirect: bool, kind: Kind) returns (status: Status)
      requires Valid()
      modifies this`added, this`counted, items
      ensures Valid()
      ensures var k := FirstFree(old(items[..]));
              && status == (if k < SIZE then Success else NoBuffer)
              && items[..] == (if k < SIZE then old(items[..])[k := Item(500, handle, indirect, true, kind)] else old(items[..]))
              && added == (if k < SIZE then old(added)[k := now] else old(added))
              && counted == (if k < SIZE then old(counted)[k := prev] else old(counted))
    {
      ghost var k := FirstFree(items[..]);
      status := NoBuffer;
      for i := 0 to SIZE
        invariant i <= k && items[..] == old(items[..])
      {
        assert items[..][i] == items[i];
        if !items[i].active {
          assert i == k;
          items[i] := Item(TIMEOUT, handle, indirect, true, kind);
          added, counted := added[i := now], counted[i := prev];
          return Success;
        }
      }
    }

    method RemoveItem(handle: nat, kind: Kind) returns (status: Status)
      requires Valid()
      modifies items
      ensures Valid()
      ensures var k := FirstMatch(old(items[..]), handle, kind);
              && status == (if k < SIZE then Success else NotFound)
              && items[..] == (if k < SIZE then old(items[..])[k := old(items[..])[k].(active := false)] else old(items[..]))
    {
      ghost var k := FirstMatch(items[..], handle, kind);
      status := NotFound;
      for i := 0 to SIZE
        invariant i <= k && items[..] == old(items[..])
      {
        assert items[..][i] == items[i];
        if items[i].active && items[i].handle == handle && items[i].kind == kind {
          assert i == k;
          items[i] := items[i].(active := false);
          return Success;
        }
      }
    }

    /** Empties the table; with callbacks that add nothing, one confirm goes out for each active entry. */
    method Purge(generate: bool) returns (confirms: seq<Confirm>)
      requires Valid()
      modifies this`uneven, items
      ensures Valid() && !uneven && forall i :: 0 <= i < SIZE ==> !items[i].active
      ensures confirms == if generate then ConfirmsOf(old(items[..])) else []
    {
      confirms := [];
      for i := 0 to SIZE
        invariant forall j :: 0 <= j < i ==> !items[j].active
        invariant forall j :: i <= j < SIZE ==> items[j] == old(items[j])
        invariant confirms == if generate then ConfirmsOf(old(items[..])[..i]) else []
        invariant Valid()
      {
        assert old(items[..])[..i + 1][..i] == old(items[..])[..i];
        if items[i].active && generate {
          confirms := confirms + [Confirm(items[i].kind, items[i].handle)];
        }
        items[i] := items[i].(active := false);
      }
      assert old(items[..])[..SIZE] == old(items[..]);
      uneven := false;
    }

    /** At the time of the last decay nothing is overdue. */
    lemma JustDecayed()
      requires Valid() && prev == now
      ensures !Overdue() && (!uneven ==> !RunOut())
    {
      forall i | 0 <= i < SIZE && items[i].active && !items[i].indirect
        ensures now - added[i] <= 500 && (!uneven ==> now - counted[i] <= 500)
      {
        var left: nat := items[i].timeout;
        assert left + prev <= 500 + added[i];
      }
    }

    /** Counts the elapsed time off every direct request, giving up at the first that has run out. */
    method Decay(curTime: nat) returns (status: Status)
      requires Valid() && now < prev + WRAP   // called at least once in a clock period
      requires curTime == Clock(now)
      modifies this`prevTime, this`prev, this`uneven, items
      ensures Valid() && status in {Success, Timeout} && uneven == (old(uneven) || status == Timeout)
      ensures !flushing && old(Overdue()) ==> status == Timeout
      ensures !flushing && !old(uneven) ==> (status == Timeout <==> old(RunOut()))
      ensures !flushing && !old(uneven) ==> (status == Timeout <==>
                exists i :: 0 <= i < SIZE && old(items[i].active && !items[i].indirect) && now - counted[i] > 500)
      ensures flushing || now == old(prev) ==> status == Success && items[..] == old(items[..]) && prev == old(prev)
      ensures !flushing && now > old(prev) ==>
                var delta := now - old(prev);
                var k := FirstExpired(old(items[..]), delta);
                && status == (if k < SIZE then Timeout else Success)
                && prev == (if k < SIZE then old(prev) else now)
                && forall i :: 0 <= i < SIZE ==> items[i] == if i < k then Aged(old(items[i]), delta) else old(items[i])
    {
      var delta := Delta(prevTime, curTime);
      DeltaIsTrue(prev, now);
      if delta == 0 || flushing {
        if !flushing {
          JustDecayed();
        }
        return Success;
      }
      status := Age(delta);
      if status.Success? {
        prevTime := curTime;
        prev := now;
      } else {
        uneven := true;
      }
    }

    /** Takes `delta` off every direct request up to the first that has less than that left. */
    method Age(delta: nat) returns (status: Status)
      requires items.Length == SIZE
      modifies items
      ensures var k := FirstExpired(old(items[..]), delta);
              && status == (if k < SIZE then Timeout else Success)
              && forall i :: 0 <= i < SIZE ==> items[i] == if i < k then Aged(old(items[i]), delta) else old(items[i])
    {
      ghost var k := FirstExpired(items[..], delta);
      for i := 0 to SIZE
        invariant i <= k
        invariant forall j :: 0 <= j < i ==> items[j] == Aged(old(items[j]), delta)
        invariant forall j :: i <= j < SIZE ==> items[j] == old(items[j])
      {
        assert old(items[..])[i] == items[i];
        if items[i].active && !items[i].indirect {
          if delta > items[i].timeout {
            return Timeout;
          }
          items[i] := items[i].(timeout := items[i].timeout - delta);
        }
      }
      return Success;
    }

    /** The reaction to a timeout: every request is confirmed with an error and forgotten. */
    method FlushFix(curTime: nat) returns (confirms: seq<Confirm>)
      requires Valid() && now < prev + WRAP && curTime == Clock(now)
      modifies this`flushing, this`prevTime, this`prev, this`uneven, items
      ensures Valid() && flushing == old(flushing)
      ensures confirms == if old(flushing) then [] else ConfirmsOf(old(items[..]))
      ensures !old(flushing) ==> prev == now && !uneven && forall i :: 0 <= i < SIZE ==> !items[i].active
    {
      if flushing {
        return [];
      }
      flushing := true;
      confirms := Purge(true);
      flushing := false;
      var status := Decay(curTime);
    }
  }

  /** A request added long after the last decay times out 1 ms later: its allowance ran from that decay. */
  method EarlyTimeout() returns (status: Status)
    ensures status == Timeout
  {
    var cache := new Cache();
    cache.Pass(500);
    assert FirstFree(cache.items[..]) == 0;
    var added := cache.AddItem(1, false, Mcps);
    assert cache.items[..][0] == Item(500, 1, false, true, Mcps);
    cache.Pass(1);
    assert cache.RunOut();
    status := cache.Decay(501);
  }

  /** Confirms and active entries correspond one to one. */
  lemma {:induction false} ConfirmPerEntry(items: seq<Item>, kind: Kind, handle: nat)
    ensures multiset(ConfirmsOf(items))[Confirm(kind, handle)] ==
            |set i | 0 <= i < |items| && items[i].active && items[i].handle == handle && items[i].kind == kind|
    decreases |items|
  {
    if items != [] {
      var n := |items| - 1;
      ConfirmPerEntry(items[..n], kind, handle);
      MatchesGrow(items, kind, handle);
      SameSets(items, kind, handle);
      SameSets(items[..n], kind, handle);
    }
  }

  lemma SameSets(items: seq<Item>, kind: Kind, handle: nat)
    ensures (set i | 0 <= i < |items| && Matches(items[i], handle, kind)) ==
            set i | 0 <= i < |items| && items[i].active && items[i].handle == handle && items[i].kind == kind
  {}

  /** And come in the same order: those of one stretch of the table ahead of those of the next. */
  lemma {:induction false} ConfirmsJoin(a: seq<Item>, b: seq<Item>)
    ensures ConfirmsOf(a + b) == ConfirmsOf(a) + ConfirmsOf(b)
    decreases |b|
  {
    if b == [] {
      assert a + b == a;
    } else {
      var n := |b| - 1;
      ConfirmsJoin(a, b[..n]);
      assert (a + b)[..|a| + n] == a + b[..n] && (a + b)[|a| + n] == b[n];
    }
  }

  lemma MatchesGrow(items: seq<Item>, kind: Kind, handle: nat)
    requires items != []
    ensures var n := |items| - 1;
            |set i | 0 <= i < |items| && Matches(items[i], handle, kind)| ==
            |set i | 0 <= i < |items[..n]| && Matches(items[..n][i], handle, kind)|
            + if Matches(items[n], handle, kind) then 1 else 0
  {
    var n := |items| - 1;
    var s := set i | 0 <= i < |items| && Matches(items[i], handle, kind);
    var t := set i | 0 <= i < |items[..n]| && Matches(items[..n][i], handle, kind);
    if Matches(items[n], handle, kind) {
      assert s == t + {n};
    } else {
      assert s == t;
    }
  }
}
