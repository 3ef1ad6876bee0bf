/** The tasklet scheduler: an intrusive linked list kept sorted in circular time. */
module Tasklets {
  import opened TaskletTime

  datatype Status = Success | Already | InvalidArgs | NotFound

  class Tasklet {
    var next: Tasklet?
    var fireTime: Time
    var scheduled: bool

    constructor ()
      ensures next == null && !scheduled
    {
      next, fireTime, scheduled := null, 0, false;
    }
  }

  /** A call of the scheduler that a callback makes. */
  datatype Request =
    | Schedule(target: Tasklet, time: Time)
    | Unschedule(target: Tasklet)

  function Minus(s: seq<Tasklet>, t: Tasklet): (r: seq<Tasklet>)
    ensures |r| <= |s|
  {
    if s == [] then [] else if s[0] == t then s[1..] else [s[0]] + Minus(s[1..], t)
  }

  /** What is left of the due tasklets after a callback's requests: those it did not cancel. */
  function Left(due: seq<Tasklet>, requests: seq<Request>): (r: seq<Tasklet>)
    ensures |r| <= |due|
    decreases |requests|
  {
    if requests == [] then due else
    var n := |requests| - 1;
    var d := Left(due, requests[..n]);
    if requests[n].Unschedule? then Minus(d, requests[n].target) else d
  }

  /** The tasklets that fire: each in turn, unless one before it cancelled it. */
  function Firing(due: seq<Tasklet>, scripts: map<Tasklet, seq<Request>>): (f: seq<Tasklet>)
    requires forall t :: t in due ==> t in scripts
    decreases |due|
  {
    if due == [] then [] else
    var rest := Left(due[1..], scripts[due[0]]);
    LeftMembers(due[1..], scripts[due[0]]);
    [due[0]] + Firing(rest, scripts)
  }

  lemma {:induction false} MinusMembers(s: seq<Tasklet>, t: Tasklet)
    ensures forall x :: x in Minus(s, t) ==> x in s
  {
    if s != [] { MinusMembers(s[1..], t); }
  }

  lemma {:induction false} LeftMembers(due: seq<Tasklet>, requests: seq<Request>)
    ensures forall x :: x in Left(due, requests) ==> x in due
    decreases |requests|
  {
    if requests != [] {
      var n := |requests| - 1;
      LeftMembers(due, requests[..n]);
      MinusMembers(Left(due, requests[..n]), requests[n].target);
    }
  }

  predicate Cancelled(t: Tasklet, requests: seq<Request>) { exists i :: 0 <= i < |requests| && requests[i] == Unschedule(t) }

  /** What is left is, in any stretch of the due tasklets, exactly what no request cancels. */
  lemma {:induction false} LeftOne(t: Tasklet, requests: seq<Request>)
    ensures Left([t], requests) == if Cancelled(t, requests) then [] else [t]
    decreases |requests|
  {
    if requests != [] {
      var n := |requests| - 1;
      LeftOne(t, requests[..n]);
      CancelledLast(t, requests);
    }
  }

  lemma CancelledLast(t: Tasklet, requests: seq<Request>)
    requires requests != []
    ensures var n := |requests| - 1;
            Cancelled(t, requests) <==> Cancelled(t, requests[..n]) || requests[n] == Unschedule(t)
  {
    var n := |requests| - 1;
    if Cancelled(t, requests[..n]) {
      var i :| 0 <= i < n && requests[..n][i] == Unschedule(t);
      assert requests[i] == Unschedule(t);
    }
    if Cancelled(t, requests) {
      var i :| 0 <= i < |requests| && requests[i] == Unschedule(t);
      assert i < n ==> requests[..n][i] == Unschedule(t);
    }
  }

  lemma {:induction false} LeftJoin(a: seq<Tasklet>, b: seq<Tasklet>, requests: seq<Request>)
    requires forall x :: x in a ==> x !in b
    ensures Left(a + b, requests) == Left(a, requests) + Left(b, requests)
    decreases |requests|
  {
    if requests != [] {
      var n := |requests| - 1;
      LeftJoin(a, b, requests[..n]);
      LeftMembers(a, requests[..n]);
      LeftMembers(b, requests[..n]);
      if requests[n].Unschedule? {
        MinusJoin(Left(a, requests[..n]), Left(b, requests[..n]), requests[n].target);
      }
    }
  }

  lemma {:induction false} MinusJoin(a: seq<Tasklet>, b: seq<Tasklet>, t: Tasklet)
    requires t in a ==> t !in b
    ensures Minus(a + b, t) == Minus(a, t) + Minus(b, t)
    decreases |a|
  {
    if a == [] {
      assert a + b == b;
    } else {
      assert (a + b)[1..] == a[1..] + b && (a + b)[0] == a[0];
      if a[0] == t {
        MinusNone(b, t);
      } else {
        MinusJoin(a[1..], b, t);
      }
    }
  }

  /** A due tasklet that a callback cancels while it waits does not fire. */
  lemma CancelledNeverFires(due: seq<Tasklet>, scripts: map<Tasklet, seq<Request>>, t: Tasklet)
    requires Distinct(due) && forall x :: x in due ==> x in scripts
    requires due != [] && t in due[1..] && Cancelled(t, scripts[due[0]])
    ensures t !in Firing(due, scripts)
  {
    var rest := Left(due[1..], scripts[due[0]]);
    LeftMembers(due[1..], scripts[due[0]]);
    var k :| 0 < k < |due| && due[k] == t;
    var a, b := due[1..k], due[k + 1..];
    assert due[1..] == a + ([t] + b);
    LeftJoin(a, [t] + b, scripts[due[0]]);
    LeftJoin([t], b, scripts[due[0]]);
    LeftOne(t, scripts[due[0]]);
    LeftMembers(a, scripts[due[0]]);
    LeftMembers(b, scripts[due[0]]);
    assert t !in rest;
    FiringMembers(rest, scripts);
    assert t != due[0];
  }

  lemma {:induction false} FiringMembers(due: seq<Tasklet>, scripts: map<Tasklet, seq<Request>>)
    requires forall x :: x in due ==> x in scripts
    ensures forall x :: x in Firing(due, scripts) ==> x in due
    decreases |due|
  {
    if due != [] {
      LeftMembers(due[1..], scripts[due[0]]);
      FiringMembers(Left(due[1..], scripts[due[0]]), scripts);
    }
  }

  /** If no callback cancels anything, everything due fires. */
  lemma {:induction false} FiringAll(due: seq<Tasklet>, scripts: map<Tasklet, seq<Request>>)
    requires forall t :: t in due ==> t in scripts
    requires forall t :: t in due ==> forall i :: 0 <= i < |scripts[t]| ==> scripts[t][i].Schedule?
    ensures Firing(due, scripts) == due
    decreases |due|
  {
    if due != [] {
      LeftAll(due[1..], scripts[due[0]]);
      FiringAll(due[1..], scripts);
    }
  }

  lemma {:induction false} LeftAll(due: seq<Tasklet>, requests: seq<Request>)
    requires forall i :: 0 <= i < |requests| ==> requests[i].Schedule?
    ensures Left(due, requests) == due
    decreases |requests|
  {
    if requests != [] { LeftAll(due, requests[..|requests| - 1]); }
  }

  lemma {:induction false} MinusAt(s: seq<Tasklet>, t: Tasklet, k: nat)
    requires k < |s| && s[k] == t && forall j :: 0 <= j < k ==> s[j] != t
    ensures Minus(s, t) == Without(s, k)
  {
    if k > 0 { MinusAt(s[1..], t, k - 1); }
  }

  lemma {:induction false} MinusNone(s: seq<Tasklet>, t: Tasklet)
    requires t !in s
    ensures Minus(s, t) == s
  {
    if s != [] { MinusNone(s[1..], t); }
  }

  predicate Distinct<T(==)>(s: seq<T>) { forall i, j :: 0 <= i < j < |s| ==> s[i] != s[j] }

  lemma WithoutMembers<T>(s: seq<T>, k: nat)
    requires k < |s| && Distinct(s)
    ensures Distinct(Without(s, k)) && |Without(s, k)| == |s| - 1
    ensures forall j :: 0 <= j < |s| - 1 ==> Without(s, k)[j] == if j < k then s[j] else s[j + 1]
    ensures forall x :: x in Without(s, k) <==> x in s && x != s[k]
  {
    forall x | x in s && x != s[k] ensures x in Without(s, k) {
      var i :| 0 <= i < |s| && s[i] == x;
      assert Without(s, k)[if i < k then i else i - 1] == x;
    }
  }

  lemma InsertMembers<T>(s: seq<T>, k: nat, t: T)
    requires k <= |s| && Distinct(s) && t !in s
    ensures Distinct(Insert(s, k, t)) && |Insert(s, k, t)| == |s| + 1
    ensures forall j :: 0 <= j <= |s| ==> Insert(s, k, t)[j] == if j < k then s[j] else if j == k then t else s[j - 1]
    ensures forall x :: x in Insert(s, k, t) <==> x in s || x == t
  {
    forall x | x in s ensures x in Insert(s, k, t) {
      var i :| 0 <= i < |s| && s[i] == x;
      assert Insert(s, k, t)[if i < k then i else i + 1] == x;
    }
    assert Insert(s, k, t)[k] == t;
  }

  /** Taking one tasklet off a list, seen on its first `p`. */
  lemma CancelPrefix(s: seq<Tasklet>, t: Tasklet, k: nat, p: nat, q: nat)
    requires Distinct(s) && k < |s| && s[k] == t && p <= |s| && q == if k < p then p - 1 else p
    ensures |Without(s, k)| == |s| - 1 && Without(s, k)[..q] == Minus(s[..p], t)
  {
    hide Minus;
    if k < p {
      MinusAt(s[..p], t, k);
      assert s[..p][..k] == s[..k] && s[..p][k + 1..] == s[k + 1..p];
      assert (s[..k] + s[k + 1..])[..q] == s[..k] + s[k + 1..p];
    } else {
      MinusNone(s[..p], t);
      assert (s[..k] + s[k + 1..])[..p] == s[..p];
    }
  }

  /** Which requests are for the future. */
  lemma TrueRequests(now: Time, time: Time)
    ensures forall a: nat, b: nat :: Reads(now, a) && Reads(time, b) && a < b + 0x8000_0000 && b < a + 0x8000_0000 ==>
              TimeToEvent(now, time) == (if a < b then b - a else 0) && (now == time <==> a == b)
  {
    forall a: nat, b: nat | Reads(now, a) && Reads(time, b) && a < b + 0x8000_0000 && b < a + 0x8000_0000
      ensures TimeToEvent(now, time) == (if a < b then b - a else 0) && (now == time <==> a == b)
    {
      TrueTimes(a, b);
    }
  }

  class Scheduler {
    var head: Tasklet?
    ghost var pool: set<Tasklet>      // every initialised tasklet
    ghost var queue: seq<Tasklet>     // the list from `head` on

    constructor ()
      ensures Valid() && queue == [] && pool == {}
    {
      head, pool, queue := null, {}, [];
    }

    lemma DueRoom(now: Time, w: Time, p: nat)
      requires Linked() && Timely(w, Times(), now, p)
      ensures p <= |queue|
    {}

    ghost predicate Linked()
      reads this, pool
    {
      && (forall i :: 0 <= i < |queue| ==> queue[i] in pool)
      && Distinct(queue)
      && head == (if queue == [] then null else queue[0])
      && (forall i {:trigger queue[i].next} :: 0 <= i < |queue| ==> queue[i].next == if i + 1 < |queue| then queue[i + 1] else null)
    }

    /** The list is acyclic and duplicate-free, and a tasklet is flagged scheduled exactly when it is on it. */
    ghost predicate Valid()
      reads this, pool
    {
      && Linked()
      && (forall t :: t in pool ==> (t.scheduled <==> t in queue))
      && (forall t :: t in pool && t !in queue ==> t.next == null)
    }

    ghost function Times(): seq<Time>
      reads this, pool
      requires Linked()
    {
      seq(|queue|, i requires 0 <= i < |queue| && queue[i] in pool reads this, pool => queue[i].fireTime)
    }

    method Register(t: Tasklet)
      requires Valid() && t !in pool && !t.scheduled && t.next == null
      modifies this`pool
      ensures Valid() && pool == old(pool) + {t} && queue == old(queue)
    {
      pool := pool + {t};
    }

    /** Walks to the first tasklet not strictly before `time`. */
    method FindPlace(time: Time) returns (prev: Tasklet?, cur: Tasklet?, ghost i: nat)
      requires Valid()
      ensures i == Place(Times(), time) && cur == (if i < |queue| then queue[i] else null)
      ensures prev == if i == 0 then null else queue[i - 1]
    {
      prev, cur, i := null, head, 0;
      while cur != null
        invariant i <= |queue| && cur == (if i < |queue| then queue[i] else null)
        invariant prev == if i == 0 then null else queue[i - 1]
        invariant forall j :: 0 <= j < i ==> TimeToEvent(Times()[j], time) != 0
        decreases |queue| - i
      {
        assert cur.fireTime == Times()[i];
        if TimeToEvent(cur.fireTime, time) == 0 {
          break;
        }
        prev, cur := cur, cur.next;
        i := i + 1;
      }
      PlaceIs(Times(), time, i);
    }

    /** Links `t` in between `prev` and `cur`. */
    method Link(t: Tasklet, prev: Tasklet?, cur: Tasklet?, ghost i: nat)
      requires Linked() && t in pool && t !in queue
      requires i <= |queue| && cur == (if i < |queue| then queue[i] else null) && prev == (if i == 0 then null else queue[i - 1])
      modifies this`head, this`queue, pool`next
      ensures Linked() && queue == Insert(old(queue), i, t) && Times() == Insert(old(Times()), i, t.fireTime)
      ensures forall x :: x in queue <==> x in old(queue) || x == t
      ensures forall x :: x in pool && x !in queue ==> x.next == old(x.next)
    {
      ghost var q := queue;
      if prev == null {
        head := t;
      } else {
        prev.next := t;
      }
      t.next := cur;
      InsertMembers(q, i, t);
      queue := Insert(q, i, t);
      Relinked(q, t, prev, i);
    }

    /** With `t` in at place `i`, exactly the node behind it and `t` itself have a new successor. */
    lemma Relinked(q: seq<Tasklet>, t: Tasklet, prev: Tasklet?, i: nat)
      requires Distinct(q) && t !in q && i <= |q| && queue == Insert(q, i, t) && prev == (if i == 0 then null else q[i - 1])
      requires t.next == (if i < |q| then q[i] else null) && (prev != null ==> prev.next == t)
      requires forall j {:trigger q[j].next} :: 0 <= j < |q| && q[j] != prev ==> q[j].next == if j + 1 < |q| then q[j + 1] else null
      ensures forall j {:trigger queue[j].next} :: 0 <= j < |queue| ==> queue[j].next == if j + 1 < |queue| then queue[j + 1] else null
    {
      forall j | 0 <= j < |queue| ensures queue[j].next == if j + 1 < |queue| then queue[j + 1] else null {
        if j < i {
          assert queue[j] == q[j];
        } else if j > i {
          assert queue[j] == q[j - 1] && q[j - 1] != prev;
        }
      }
    }

    method Enqueue(t: Tasklet, time: Time)
      requires Valid() && t in pool && !t.scheduled
      modifies this`head, this`queue, pool
      ensures Valid()
      ensures var k := Place(old(Times()), time);
              queue == Insert(old(queue), k, t) && Times() == Insert(old(Times()), k, time)
    {
      SetTime(t, time);
      var prev, cur;
      ghost var i;
      prev, cur, i := FindPlace(time);
      Link(t, prev, cur, i);
      Mark(t);
    }

    method Mark(t: Tasklet)
      requires Linked() && t in queue && forall x :: x in pool && x !in queue ==> x.next == null
      requires forall x :: x in pool && x != t ==> (x.scheduled <==> x in queue)
      modifies t`scheduled
      ensures Valid() && Times() == old(Times())
    {
      t.scheduled := true;
    }

    method SetTime(t: Tasklet, time: Time)
      requires Valid() && t in pool && t !in queue
      modifies t`fireTime
      ensures Valid() && t.fireTime == time && Times() == old(Times())
    {
      t.fireTime := time;
      assert forall j :: 0 <= j < |queue| ==> queue[j] != t;
    }

    /** Queues `t` for the absolute time `time`, ahead of everything due at the same time or later. */
    method ScheduleAbs(t: Tasklet, now: Time, time: Time) returns (status: Status)
      requires Valid() && t in pool
      modifies this`head, this`queue, pool
      ensures Valid()
      ensures status == if old(t.scheduled) then Already
                        else if TimeToEvent(now, time) == 0 && now != time then InvalidArgs else Success
      ensures forall a: nat, b: nat :: Reads(now, a) && Reads(time, b) && a <= b < a + 0x8000_0000 ==>
                status == if old(t.scheduled) then Already else Success
      ensures forall a: nat, b: nat :: Reads(now, a) && Reads(time, b) && b < a < b + 0x8000_0000 ==>
                status == if old(t.scheduled) then Already else InvalidArgs
      ensures status != Success ==> queue == old(queue) && Times() == old(Times())
      ensures status == Success ==>
                var k := Place(old(Times()), time);
                queue == Insert(old(queue), k, t) && Times() == Insert(old(Times()), k, time)
    {
      if t.scheduled {
        return Already;
      }
      TrueRequests(now, time);
      if TimeToEvent(now, time) == 0 && now != time {
        return InvalidArgs;
      }
      Enqueue(t, time);
      return Success;
    }

    method FindNode(t: Tasklet) returns (prev: Tasklet?, ghost i: nat)
      requires Valid() && t in queue
      ensures i < |queue| && queue[i] == t && prev == if i == 0 then null else queue[i - 1]
    {
      var cur := head;
      prev, i := null, 0;
      while cur != t
        invariant i < |queue| && cur == queue[i]
        invariant prev == if i == 0 then null else queue[i - 1]
        invariant forall j :: 0 <= j < i ==> queue[j] != t
        decreases |queue| - i
      {
        prev, cur := cur, cur.next;
        i := i + 1;
      }
    }

    /** Takes `cur` out from behind `prev`. */
    method Unlink(cur: Tasklet, prev: Tasklet?, ghost i: nat)
      requires Linked() && i < |queue| && queue[i] == cur && prev == (if i == 0 then null else queue[i - 1])
      modifies this`head, this`queue, pool`next
      ensures Linked() && cur.next == null && queue == Without(old(queue), i)
      ensures forall x :: x in pool && x !in old(queue) ==> x.next == old(x.next)
    {
      ghost var q := queue;
      if prev == null {
        head := cur.next;
      } else {
        prev.next := cur.next;
      }
      cur.next := null;
      WithoutMembers(q, i);
      queue := Without(q, i);
    }

    method Dequeue(t: Tasklet, ghost k: nat)
      requires Valid() && k < |queue| && queue[k] == t
      modifies this`head, this`queue, pool
      ensures Valid() && !t.scheduled && queue == Without(old(queue), k) && Times() == Without(old(Times()), k)
    {
      ghost var times, q := Times(), queue;
      var prev;
      ghost var i;
      prev, i := FindNode(t);
      assert i == k;
      Unlink(t, prev, i);
      WithoutMembers(q, i);
      t.scheduled := false;
      assert Times() == Without(times, i);
    }

    /** Takes `t` off the list, and nothing else. */
    method Cancel(t: Tasklet) returns (status: Status)
      requires Valid() && t in pool
      modifies this`head, this`queue, pool
      ensures Valid() && !t.scheduled
      ensures status == if old(t.scheduled) then Success else Already
      ensures status == Already ==> queue == old(queue) && Times() == old(Times())
      ensures status == Success ==>
                forall k :: 0 <= k < |old(queue)| && old(queue)[k] == t ==>
                  queue == Without(old(queue), k) && Times() == Without(old(Times()), k)
    {
      if !t.scheduled {
        return Already;
      }
      ghost var k :| 0 <= k < |queue| && queue[k] == t;
      Dequeue(t, k);
      return Success;
    }

    /** Time until the first tasklet is due. */
    method GetTimeToNext(now: Time) returns (status: Status, delta: Time)
      requires Valid()
      ensures status == if queue == [] then NotFound else Success
      ensures queue != [] ==> delta == TimeToEvent(now, Times()[0])
      ensures forall a: nat, b: nat ::
                queue != [] && Reads(now, a) && Reads(Times()[0], b) && a < b + 0x8000_0000 && b < a + 0x8000_0000 ==>
                  delta == if a < b then b - a else 0
    {
      if head == null {
        return NotFound, 0;
      }
      TrueRequests(now, head.fireTime);
      return Success, TimeToEvent(now, head.fireTime);
    }

    /** A callback: it asks for its tasklets to be scheduled or cancelled, one after another. */
    method RunCallback(requests: seq<Request>, now: Time, ghost w: Time, ghost p: nat)
      requires Valid() && Timely(w, Times(), now, p) && Later(requests, pool, now, w)
      modifies this`head, this`queue, pool
      ensures Valid() && p <= |old(queue)|
      ensures var left := Left(old(queue)[..p], requests);
              |left| <= |queue| && queue[..|left|] == left && Timely(w, Times(), now, |left|)
    {
      var i := 0;
      ghost var due, q := queue[..p], p;
      while i < |requests|
        invariant i <= |requests| && Valid() && Timely(w, Times(), now, q)
        invariant queue[..q] == Left(due, requests[..i])
      {
        assert requests[..i + 1][..i] == requests[..i];
        q := DoRequest(requests[i], now, w, q);
        i := i + 1;
      }
      assert requests[..|requests|] == requests;
    }

    /** One request: a schedule leaves the due tasklets alone, a cancel takes its own out. */
    method DoRequest(r: Request, now: Time, ghost w: Time, ghost p: nat) returns (ghost q: nat)
      requires Valid() && Timely(w, Times(), now, p) && r.target in pool
      requires r.Schedule? ==> Delta(w, r.time) < HALF && Delta(w, now) < Delta(w, r.time)
      modifies this`head, this`queue, pool
      ensures Valid() && Timely(w, Times(), now, q) && p <= |old(queue)|
      ensures q <= |queue| && queue[..q] == if r.Unschedule? then Minus(old(queue)[..p], r.target) else old(queue)[..p]
    {
      ghost var before, times := queue, Times();
      if r.Schedule? {
        TimelyInsert(w, times, now, p, r.time);
        var status := ScheduleAbs(r.target, now, r.time);
        q := p;
        assert queue[..q] == before[..p];
      } else {
        q := CancelDue(r.target, now, w, p);
      }
    }

    method CancelDue(t: Tasklet, now: Time, ghost w: Time, ghost p: nat) returns (ghost q: nat)
      requires Valid() && Timely(w, Times(), now, p) && t in pool
      modifies this`head, this`queue, pool
      ensures Valid() && Timely(w, Times(), now, q) && p <= |old(queue)|
      ensures q <= |queue| && queue[..q] == Minus(old(queue)[..p], t)
    {
      hide Timely, Without;
      DueRoom(now, w, p);
      ghost var before, times := queue, Times();
      q := p;
      if t.scheduled {
        ghost var k :| 0 <= k < |queue| && queue[k] == t;
        TimelyRemove(w, times, now, p, k);
        q := if k < p then p - 1 else p;
        CancelPrefix(before, t, k, p, q);
        Dequeue(t, k);
      } else {
        MinusNone(before[..p], t);
      }
    }

    method IsFirstDue(now: Time, ghost w: Time, ghost p: nat) returns (due: bool)
      requires Valid() && queue != [] && Timely(w, Times(), now, p) && Delta(w, now) < HALF
      ensures due <==> p > 0
    {
      TimelyFirst(w, Times(), now, p);
      var status, delta := GetTimeToNext(now);
      due := delta == 0;
    }

    /** Takes the first tasklet off and runs its callback. */
    method Fire(requests: seq<Request>, now: Time, ghost w: Time, ghost p: nat) returns (t: Tasklet)
      requires Valid() && Timely(w, Times(), now, p) && 0 < p && Delta(w, now) < HALF && Later(requests, pool, now, w)
      modifies this`head, this`queue, pool
      ensures Valid() && p <= |old(queue)| && t == old(queue)[0]
      ensures var left := Left(old(queue)[1..p], requests);
              |left| <= |queue| && queue[..|left|] == left && Timely(w, Times(), now, |left|)
    {
      ghost var q, times := queue, Times();
      t := head;
      TimelyFirst(w, times, now, p);
      Dequeue(t, 0);
      assert queue == q[1..] && Times() == times[1..];
      assert queue[..p - 1] == q[1..p];
      RunCallback(requests, now, w, p - 1);
    }

    /**
     * Runs everything due at `now`. The callbacks are given as the calls each makes: schedules strictly later than `now`
     * and inside the window that starts at `w`, and cancels of any tasklet.
     */
    method Process(now: Time, scripts: map<Tasklet, seq<Request>>, ghost w: Time) returns (status: Status, fired: seq<Tasklet>)
      requires Valid() && InWindow(w, Times()) && Sorted(w, Times()) && Delta(w, now) < HALF
      requires forall t :: t in pool ==> t in scripts && Later(scripts[t], pool, now, w)
      modifies this`head, this`queue, pool
      ensures Valid() && Timely(w, Times(), now, 0)
      ensures (forall t :: t in old(queue) ==> t in scripts)
              && fired == Firing(old(queue)[..DueCount(old(Times()), now)], scripts)
      ensures status == if fired == [] then NotFound else Success
    {
      hide Timely, Later, Left;
      status, fired := NotFound, [];
      ghost var p: nat := DueCount(Times(), now);
      ghost var all := Firing(queue[..p], scripts);
      TimelyStart(w, Times(), now);
      while head != null
        invariant Valid() && p <= |queue| && Timely(w, Times(), now, p)
        invariant fired + Firing(queue[..p], scripts) == all
        invariant status == if fired == [] then NotFound else Success
        decreases p
      {
        var due := IsFirstDue(now, w, p);
        if !due {
          break;
        }
        status := Success;
        ghost var was := queue[..p];
        var script := scripts[head];
        assert was[1..] == queue[1..p] && script == scripts[was[0]];
        var t := Fire(script, now, w, p);
        p := |Left(was[1..], script)|;
        fired := fired + [t];
      }
    }
  }

  /** Every request is for an initialised tasklet, and every schedule strictly later than `now` and inside the window. */
  ghost predicate Later(requests: seq<Request>, pool: set<Tasklet>, now: Time, w: Time) {
    forall i :: 0 <= i < |requests| ==>
      requests[i].target in pool &&
      (requests[i].Schedule? ==> Delta(w, requests[i].time) < HALF && Delta(w, now) < Delta(w, requests[i].time))
  }

  lemma {:induction false} PlaceIs(times: seq<Time>, t: Time, k: nat)
    requires k <= |times| && (forall i :: 0 <= i < k ==> TimeToEvent(times[i], t) != 0)
    requires k < |times| ==> TimeToEvent(times[k], t) == 0
    ensures Place(times, t) == k
  {}
}
