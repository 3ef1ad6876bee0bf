/** Whole runs of the settings store: the shape compaction relies on, and refinement of a map from keys to lists. */
module SettingsRuns {
  import opened Bytes
  import opened SettingsLog
  import opened SettingsView
  import opened Compaction

  /* ---- one operation on the log ---- */

  /** The record a completed set or add leaves: erased padding behind the value, whatever `reserved` holds. */
  function NewRec(key: u16, index0: bool, value: seq<byte>, reserved: u16): (r: Rec)
    requires |value| <= MAX_LEN
    ensures r.Wf() && r.Live() && r.Value() == value
  {
    Rec(key, Flags(true, true, false, index0, 15), 0, |value|, reserved, value + Fill(AlignLength(|value|) - |value|))
  }

  /**
   * `full` says that the area had no room, so that the operation compacts before it appends. A set or add that finds no
   * room even then is refused, but has compacted.
   */
  datatype Op =
    | Refused(key: u16)
    | Set(key: u16, value: seq<byte>, reserved: u16, full: bool)
    | Add(key: u16, value: seq<byte>, reserved: u16, full: bool)
    | Remove(key: u16, index: int)

  predicate Sized(op: Op) { op.Set? || op.Add? ==> |op.value| <= MAX_LEN }

  function Room(log: Log, full: bool): Log { if full then Compact(log) else log }

  function Apply(log: Log, op: Op): Log
    requires Sized(op)
  {
    match op
    case Refused(_) => Compact(log)
    case Set(key, value, reserved, full) => Room(log, full) + [NewRec(key, true, value, reserved)]
    case Add(key, value, reserved, full) =>
      Room(log, full) + [NewRec(key, Visible(log, |log|, key) == [], value, reserved)]
    case Remove(key, index) => Delete(log, key, index)
  }

  /* ---- the shape over runs ---- */

  /** In shape means: the last index-0 record is live, or nothing before it is. */
  lemma ShapeByLastGroup(log: Log, key: u16)
    ensures Shape(log, key) <==> var g := LastGroup(log, |log|, key);
              g == 0 || log[g - 1].Live() || forall j :: 0 <= j < g && log[j].key == key ==> !log[j].Live()
  {
    var g := LastGroup(log, |log|, key);
    if g > 0 && log[g - 1].Live() {
      forall j, m | 0 <= j < |log| && 0 <= m < |log| && Hides(log, key, j, m) ensures Superseded(log, j) {
        assert Supersedes(log, j, g - 1);
      }
    } else if g > 0 {
      var n := LastLive(log, g, key);
      if n > 0 { NotSuperseded(log, key, n, g); }
    }
  }

  lemma NotSuperseded(log: Log, key: u16, n: nat, g: nat)
    requires 0 < n < g == LastGroup(log, |log|, key) && !log[g - 1].Live() && n == LastLive(log, g, key)
    ensures !Shape(log, key)
  {
    assert !Superseded(log, n - 1);
    assert Hides(log, key, n - 1, g - 1);
  }

  /** The position just behind the last live record of `key` among the first `n` (0 if there is none). */
  function LastLive(log: Log, n: nat, key: u16): (g: nat)
    requires n <= |log|
    ensures g <= n
    ensures forall m :: g <= m < n && log[m].key == key ==> !log[m].Live()
    ensures g > 0 ==> log[g - 1].key == key && log[g - 1].Live()
  {
    if n == 0 then 0 else
    if log[n - 1].key == key && log[n - 1].Live() then n else LastLive(log, n - 1, key)
  }

  lemma AppendKeepsShape(log: Log, r: Rec, key: u16)
    requires Shape(log, key) && r.Live()
    ensures Shape(log + [r], key)
  {
    var l := log + [r];
    forall j, m | 0 <= j < |l| && 0 <= m < |l| && Hides(l, key, j, m) ensures Superseded(l, j) {
      if m == |log| {
        assert Supersedes(l, j, m);
      } else {
        assert Hides(log, key, j, m);
        var i :| 0 <= i < |log| && Supersedes(log, j, i);
        assert Supersedes(l, j, i);
      }
    }
  }

  /** A record cut off before completion keeps the shape unless it hides live records, as an interrupted set can. */
  lemma PartialKeepsShape(log: Log, r: Rec, key: u16)
    requires Shape(log, key) && !r.Live()
    requires r.key == key && r.Index0() ==> Visible(log, |log|, key) == []
    ensures Shape(log + [r], key)
  {
    var l := log + [r];
    if r.key == key && r.Index0() { EmptyMeansNoneLive(log, key); }
    forall j, m | 0 <= j < |l| && 0 <= m < |l| && Hides(l, key, j, m) ensures Superseded(l, j) {
      if m < |log| {
        assert Hides(log, key, j, m);
        var i :| 0 <= i < |log| && Supersedes(log, j, i);
        assert Supersedes(l, j, i);
      }
    }
  }

  lemma EmptyMeansNoneLive(log: Log, key: u16)
    requires Shape(log, key) && Visible(log, |log|, key) == []
    ensures forall j :: 0 <= j < |log| && log[j].key == key ==> !log[j].Live()
  {
    var g := LastGroup(log, |log|, key);
    VisibleGroup(log, |log|, key);
    forall j | 0 <= j < |log| && g - 1 <= j && log[j].key == key ensures !log[j].Live() {
      assert IndexAt(log, j, key) >= 0;
    }
    ShapeByLastGroup(log, key);
  }

  /** After compaction every record is live, so every key is in shape. */
  lemma CompactInShape(log: Log, key: u16)
    ensures Shape(Compact(log), key)
  {
    var c := Compact(log);
    forall j, m | 0 <= j < |c| && 0 <= m < |c| && Hides(c, key, j, m) ensures Superseded(c, j) {
      assert Survives(log, Kept(log, |log|)[m]);
      assert Supersedes(c, j, m);
    }
  }

  /** The positions `v` lie in the group that starts just before `g`, numbered in order. */
  ghost predicate Numbered(log: Log, v: seq<nat>, g: nat, key: u16) {
    forall i :: 0 <= i < |v| ==> g - 1 <= v[i] < |log| && IndexAt(log, v[i], key) == i
  }

  /** `v` holds every live record of `key` from just before `g` up to `n`, at its number. */
  ghost predicate Complete(log: Log, v: seq<nat>, g: nat, n: nat, key: u16)
    requires n <= |log|
  {
    forall j {:trigger IndexAt(log, j, key)} :: 0 <= j < n && g - 1 <= j && log[j].key == key && log[j].Live() ==>
      IndexAt(log, j, key) < |v| && v[IndexAt(log, j, key)] == j
  }

  /** The visible records are the live ones of the last group, numbered in order. */
  lemma {:induction false} VisibleGroup(log: Log, n: nat, key: u16)
    requires n <= |log|
    ensures Numbered(log, Visible(log, n, key), LastGroup(log, n, key), key)
    ensures Complete(log, Visible(log, n, key), LastGroup(log, n, key), n, key)
    decreases n
  {
    if n > 0 {
      VisibleGroup(log, n - 1, key);
      var u, g := Visible(log, n - 1, key), LastGroup(log, n - 1, key);
      NumberedStep(log, n - 1, u, g, key);
      CompleteStep(log, n - 1, u, g, key);
    }
  }

  function Group(log: Log, n: nat, g: nat, key: u16): nat
    requires n < |log|
  {
    if log[n].key == key && log[n].Index0() then n + 1 else g
  }

  lemma NumberedStep(log: Log, n: nat, u: seq<nat>, g: nat, key: u16)
    requires g <= n < |log| && u == Visible(log, n, key) && Numbered(log, u, g, key)
    ensures Numbered(log, Extend(u, n, log[n], key), Group(log, n, g, key), key)
  {
    var v := Extend(u, n, log[n], key);
    forall i | 0 <= i < |v| ensures Group(log, n, g, key) - 1 <= v[i] < |log| && IndexAt(log, v[i], key) == i {
      assert (i < |u| && v[i] == u[i]) || (v[i] == n && IndexAt(log, n, key) == i);
    }
  }

  lemma CompleteStep(log: Log, n: nat, u: seq<nat>, g: nat, key: u16)
    requires g <= n < |log| && u == Visible(log, n, key) && Complete(log, u, g, n, key)
    ensures Complete(log, Extend(u, n, log[n], key), Group(log, n, g, key), n + 1, key)
  {
    var v, h := Extend(u, n, log[n], key), Group(log, n, g, key);
    forall j | 0 <= j < n + 1 && h - 1 <= j && log[j].key == key && log[j].Live()
      ensures IndexAt(log, j, key) < |v| && v[IndexAt(log, j, key)] == j
    {
      if j < n {
        assert IndexAt(log, j, key) < |u| && u[IndexAt(log, j, key)] == j && u <= v;
      }
    }
  }

  /** Some superseded group of `key` still has a second live record. */
  ghost predicate SupersededPair(log: Log, key: u16) {
    exists j :: 0 <= j < LastGroup(log, |log|, key) && log[j].key == key && log[j].Live() && IndexAt(log, j, key) >= 1
  }

  /** Deleting the only visible value while a superseded group holds a pair promotes a stale record. */
  ghost predicate Resurrects(log: Log, key: u16) {
    |Visible(log, |log|, key)| == 1 && SupersededPair(log, key)
  }

  lemma {:induction false} LastGroupIs(log: Log, n: nat, key: u16, g: nat)
    requires g <= n <= |log|
    requires forall m :: g <= m < n && log[m].key == key ==> !log[m].Index0()
    requires g > 0 ==> log[g - 1].key == key && log[g - 1].Index0()
    ensures LastGroup(log, n, key) == g
    decreases n
  {
    if n > g { LastGroupIs(log, n - 1, key, g); }
  }

  /** What a delete of element 0 makes of a record of its key. */
  lemma DeletedAt(log: Log, key: u16, j: nat)
    requires j < |log| && log[j].key == key
    ensures var d := Delete(log, key, 0);
            && d[j].key == key && (d[j].Live() <==> log[j].Live() && IndexAt(log, j, key) >= 1)
            && (d[j].Index0() <==> log[j].Index0() || (log[j].Live() && IndexAt(log, j, key) == 1))
  {
    assert Delete(log, key, 0)[j] == AfterDelete(log, j, key, 0);
  }

  /** The exact condition under which deleting element 0 keeps a key in shape. */
  lemma DeleteFirstShape(log: Log, key: u16)
    requires Shape(log, key)
    ensures Shape(Delete(log, key, 0), key) <==> !Resurrects(log, key)
  {
    hide Shape, Visible, Delete, LastGroup, IndexAt, SupersededPair;
    var v, d, g := Visible(log, |log|, key), Delete(log, key, 0), LastGroup(log, |log|, key);
    ShapeByLastGroup(d, key);
    if |v| >= 2 {
      PromotedGroup(log, key);
    } else {
      UnpromotedLast(log, key);
      SupersededLeft(log, key);
      if g > 0 { UnpromotedHead(log, key); }
      if |v| == 0 { NothingResurrects(log, key); }
    }
  }

  /** An empty list of a key in shape leaves no live record behind. */
  lemma NothingResurrects(log: Log, key: u16)
    requires Shape(log, key) && Visible(log, |log|, key) == []
    ensures !SupersededPair(log, key)
  {
    EmptyMeansNoneLive(log, key);
  }

  /** Behind the last group, exactly the second and later live records of the superseded groups stay live. */
  lemma SupersededLeft(log: Log, key: u16)
    ensures var d, g := Delete(log, key, 0), LastGroup(log, |log|, key);
            SupersededPair(log, key) <==> !forall j :: 0 <= j < g && d[j].key == key ==> !d[j].Live()
  {
    var d, g := Delete(log, key, 0), LastGroup(log, |log|, key);
    forall j | 0 <= j < g
      ensures d[j].key == log[j].key
      ensures log[j].key == key ==> (d[j].Live() <==> log[j].Live() && IndexAt(log, j, key) >= 1)
    {
      assert d[j] == AfterDelete(log, j, key, 0);
    }
  }

  lemma PromotedGroup(log: Log, key: u16)
    requires |Visible(log, |log|, key)| >= 2
    ensures var d := Delete(log, key, 0);
            var g := LastGroup(d, |d|, key);
            g > 0 && d[g - 1].Live()
  {
    hide IndexAt, Visible, AfterDelete;
    var d, x := Delete(log, key, 0), Visible(log, |log|, key)[1];
    PromotedAt(log, key);
    forall m | x < m < |log| && d[m].key == key ensures !d[m].Index0() {
      PromotedTail(log, key, m);
    }
    LastGroupIs(d, |log|, key, x + 1);
  }

  lemma PromotedAt(log: Log, key: u16)
    requires |Visible(log, |log|, key)| >= 2
    ensures var d, x := Delete(log, key, 0), Visible(log, |log|, key)[1];
            x < |log| == |d| && d[x].key == key && d[x].Index0() && d[x].Live()
  {
    VisibleGroup(log, |log|, key);
    var x := Visible(log, |log|, key)[1];
    assert IndexAt(log, x, key) == 1;
    DeletedAt(log, key, x);
  }

  lemma PromotedTail(log: Log, key: u16, m: nat)
    requires |Visible(log, |log|, key)| >= 2 && Visible(log, |log|, key)[1] < m < |log|
    requires Delete(log, key, 0)[m].key == key
    ensures !Delete(log, key, 0)[m].Index0()
  {
    VisibleGroup(log, |log|, key);
    assert Delete(log, key, 0)[m] == AfterDelete(log, m, key, 0);
    assert !log[m].Index0() && (log[m].Live() ==> IndexAt(log, m, key) != 1);
  }

  lemma UnpromotedLast(log: Log, key: u16)
    requires |Visible(log, |log|, key)| < 2
    ensures LastGroup(Delete(log, key, 0), |log|, key) == LastGroup(log, |log|, key)
  {
    var d, g := Delete(log, key, 0), LastGroup(log, |log|, key);
    forall m | g <= m < |log| && d[m].key == key ensures !d[m].Index0() {
      UnpromotedTail(log, key, m);
    }
    if g > 0 { DeletedAt(log, key, g - 1); }
    LastGroupIs(d, |log|, key, g);
  }

  lemma UnpromotedTail(log: Log, key: u16, m: nat)
    requires |Visible(log, |log|, key)| < 2 && LastGroup(log, |log|, key) <= m < |log| && Delete(log, key, 0)[m].key == key
    ensures !Delete(log, key, 0)[m].Index0()
  {
    VisibleGroup(log, |log|, key);
    assert Delete(log, key, 0)[m] == AfterDelete(log, m, key, 0);
    DeletedAt(log, key, m);
    assert log[m].Live() ==> IndexAt(log, m, key) < 2;
  }

  lemma UnpromotedHead(log: Log, key: u16)
    requires LastGroup(log, |log|, key) > 0
    ensures !Delete(log, key, 0)[LastGroup(log, |log|, key) - 1].Live()
  {
    DeletedAt(log, key, LastGroup(log, |log|, key) - 1);
  }

  /** What goes wrong otherwise: the deleted list is empty, and the next compaction brings stale values back. */
  lemma StaleValuesReturn(log: Log, key: u16)
    requires AllWf(log) && Shape(log, key) && Resurrects(log, key)
    ensures AllWf(Delete(log, key, 0)) && List(Delete(log, key, 0), key) == []
    ensures AllWf(Compact(Delete(log, key, 0))) && List(Compact(Delete(log, key, 0)), key) != []
  {
    var d := Delete(log, key, 0);
    DeleteRefines(log, key, 0, key);
    DeleteFirstShape(log, key);
    CompactWf(d, |d|);
    OutOfShapeGrows(d, key);
    ListOfSeen(Compact(d), key);
  }

  /** Two adds and a set: deleting what the set left brings the second value back at the next compaction. */
  lemma StaleWitness(key: u16, a: seq<byte>, b: seq<byte>, c: seq<byte>)
    requires |a| <= MAX_LEN && |b| <= MAX_LEN && |c| <= MAX_LEN
    ensures var l := Apply(Apply(Apply([], Add(key, a, 0, false)), Add(key, b, 0, false)), Set(key, c, 0, false));
            AllWf(l) && Shape(l, key) && Resurrects(l, key)
  {
    var r, s, t := NewRec(key, true, a, 0), NewRec(key, false, b, 0), NewRec(key, true, c, 0);
    assert Visible([r], 1, key) == [0];
    assert Apply([], Add(key, a, 0, false)) == [r];
    assert Apply([r], Add(key, b, 0, false)) == [r, s];
    assert Apply([r, s], Set(key, c, 0, false)) == [r, s, t];
    StaleGroup(key, r, s, t);
  }

  lemma StaleGroup(key: u16, r: Rec, s: Rec, t: Rec)
    requires r.key == s.key == t.key == key && r.Live() && s.Live() && t.Live() && r.Index0() && !s.Index0() && t.Index0()
    ensures Shape([r, s, t], key) && Resurrects([r, s, t], key)
  {
    var l := [r, s, t];
    assert Visible(l, 0, key) == [] && Visible(l, 1, key) == [0];
    assert Visible(l, 2, key) == Extend(Visible(l, 1, key), 1, s, key);
    assert Visible(l, 3, key) == Extend(Visible(l, 2, key), 2, t, key);
    assert LastGroup(l, 3, key) == 3 && IndexAt(l, 1, key) == 1;
    ShapeByLastGroup(l, key);
  }

  /** Deleting any other element, or all of them, keeps every key in shape. */
  lemma DeleteOtherShape(log: Log, key: u16, index: int, other: u16)
    requires Shape(log, other)
    requires other == key ==> index != 0
    ensures Shape(Delete(log, key, index), other)
  {
    var d := Delete(log, key, index);
    assert forall j :: 0 <= j < |log| ==> d[j] == AfterDelete(log, j, key, index);
    forall j, m | 0 <= j < |d| && 0 <= m < |d| && Hides(d, other, j, m) ensures Superseded(d, j) {
      assert Hides(log, other, j, m);
      var i :| 0 <= i < |log| && Supersedes(log, j, i);
      assert Supersedes(d, j, i);
    }
  }

  /** As far as `key` is concerned, the operation does not delete its way into a stale group. */
  ghost predicate Allowed(log: Log, op: Op, key: u16) {
    Sized(op) && (op.Remove? && op.key == key && op.index == 0 ==> !Resurrects(log, key))
  }

  /** Exactly the allowed operations keep a key in shape. */
  lemma ApplyKeepsShape(log: Log, op: Op, key: u16)
    requires Sized(op) && Shape(log, key)
    ensures Shape(Apply(log, op), key) <==> Allowed(log, op, key)
  {
    match op
    case Refused(_) =>
      CompactInShape(log, key);
    case Set(k, value, reserved, full) =>
      CompactInShape(log, key);
      AppendKeepsShape(Room(log, full), NewRec(k, true, value, reserved), key);
    case Add(k, value, reserved, full) =>
      CompactInShape(log, key);
      AppendKeepsShape(Room(log, full), NewRec(k, Visible(log, |log|, k) == [], value, reserved), key);
    case Remove(k, index) =>
      if k == key && index == 0 {
        DeleteFirstShape(log, key);
      } else {
        DeleteOtherShape(log, k, index, key);
      }
  }

  ghost function Run(log: Log, ops: seq<Op>): Log
    requires forall i :: 0 <= i < |ops| ==> Sized(ops[i])
  {
    if ops == [] then log else Apply(Run(log, ops[..|ops| - 1]), ops[|ops| - 1])
  }

  ghost predicate AllowedRun(log: Log, ops: seq<Op>, key: u16) {
    && (forall i :: 0 <= i < |ops| ==> Sized(ops[i]))
    && forall i :: 0 <= i < |ops| ==> Allowed(Run(log, ops[..i]), ops[i], key)
  }

  lemma RunStep(log: Log, ops: seq<Op>, key: u16)
    requires AllowedRun(log, ops, key) && ops != []
    ensures var n := |ops| - 1; AllowedRun(log, ops[..n], key) && Allowed(Run(log, ops[..n]), ops[n], key)
  {
    var n := |ops| - 1;
    assert forall i :: 0 <= i < n ==> ops[..n][..i] == ops[..i] && ops[..n][i] == ops[i];
  }

  /** Over every run that never deletes its way into a stale group of a key, that key stays in shape. */
  lemma {:induction false} RunKeepsShape(log: Log, ops: seq<Op>, key: u16)
    requires AllowedRun(log, ops, key) && Shape(log, key)
    ensures Shape(Run(log, ops), key)
    decreases |ops|
  {
    if ops != [] {
      var n := |ops| - 1;
      RunStep(log, ops, key);
      RunKeepsShape(log, ops[..n], key);
      ApplyKeepsShape(Run(log, ops[..n]), ops[n], key);
    }
  }

  /** What an operation of a run is carried out on and what it leaves. */
  lemma RunPrefix(log: Log, ops: seq<Op>, key: u16, i: nat)
    requires (forall i :: 0 <= i < |ops| ==> Sized(ops[i])) && i <= |ops|
    ensures i > 0 ==> Run(log, ops[..i]) == Apply(Run(log, ops[..i - 1]), ops[i - 1])
    ensures AllowedRun(log, ops, key) ==> AllowedRun(log, ops[..i], key)
  {
    hide Apply, Allowed;
    var o := ops[..i];
    assert i > 0 ==> o[..|o| - 1] == ops[..i - 1];
    assert forall j :: 0 <= j < i ==> o[..j] == ops[..j] && o[j] == ops[j];
  }

  /** And only over those: a run is of that kind if and only if it leaves the key in shape at every point. */
  lemma AllowedRunExact(log: Log, ops: seq<Op>, key: u16)
    requires (forall i :: 0 <= i < |ops| ==> Sized(ops[i])) && Shape(log, key)
    ensures AllowedRun(log, ops, key) <==> forall i :: 0 <= i <= |ops| ==> Shape(Run(log, ops[..i]), key)
  {
    hide Shape, Run, Apply, Allowed;
    if AllowedRun(log, ops, key) {
      forall i | 0 <= i <= |ops| ensures Shape(Run(log, ops[..i]), key) {
        RunPrefix(log, ops, key, i);
        RunKeepsShape(log, ops[..i], key);
      }
    }
    if forall i :: 0 <= i <= |ops| ==> Shape(Run(log, ops[..i]), key) {
      forall i | 0 <= i < |ops| ensures Allowed(Run(log, ops[..i]), ops[i], key) {
        RunPrefix(log, ops, key, i + 1);
        assert Shape(Run(log, ops[..i + 1]), key);
        ApplyKeepsShape(Run(log, ops[..i]), ops[i], key);
      }
    }
  }

  /** A key that is only ever set and added to, or deleted from elsewhere than at element 0, always stays in shape. */
  lemma QuietKeyKeepsShape(log: Log, ops: seq<Op>, key: u16)
    requires forall i :: 0 <= i < |ops| ==> Sized(ops[i]) && !(ops[i].Remove? && ops[i].key == key && ops[i].index == 0)
    requires Shape(log, key)
    ensures Shape(Run(log, ops), key)
  {
    RunKeepsShape(log, ops, key);
  }

  /* ---- refinement of a map from keys to lists ---- */

  /** The same operation on the list of `key` alone. */
  function Abstract(list: seq<seq<byte>>, op: Op, key: u16): seq<seq<byte>> {
    if op.key != key then list else
    match op
    case Refused(_) => list
    case Set(_, value, _, _) => [value]
    case Add(_, value, _, _) => list + [value]
    case Remove(_, index) => RemoveAt(list, index)
  }

  function AbstractRun(list: seq<seq<byte>>, ops: seq<Op>, key: u16): seq<seq<byte>> {
    if ops == [] then list else Abstract(AbstractRun(list, ops[..|ops| - 1], key), ops[|ops| - 1], key)
  }

  /** Leading octets of a value of `n` octets that every compaction keeps. */
  function Safe(n: nat): (d: nat)
    ensures d <= n
  {
    if n > MAX_LEN then 0 else
    var c := CopiedLength(AlignLength(n));
    if c < n then c else n
  }

  /** All of them for a lossless length. */
  lemma SafeWhole(n: nat)
    requires n <= 0xFFF4
    ensures Safe(n) == n <==> Lossless(n)
    ensures !Lossless(n) ==> Safe(n) == AlignLength(n) - AlignLength(n) % 256
  {
    CopiedLengthMod(AlignLength(n));
  }

  predicate SameSafely(v: seq<byte>, w: seq<byte>) { |v| == |w| && v[..Safe(|v|)] == w[..Safe(|v|)] }

  /** As many values, of the same lengths, with the same octets wherever compaction keeps them. */
  ghost predicate Agree(a: seq<seq<byte>>, b: seq<seq<byte>>) {
    |a| == |b| && forall i :: 0 <= i < |a| ==> SameSafely(a[i], b[i])
  }

  /** Values of lossless length are the same altogether. */
  lemma AgreeLossless(a: seq<seq<byte>>, b: seq<seq<byte>>, i: nat)
    requires Agree(a, b) && i < |a| && |a[i]| <= MAX_LEN && Lossless(|a[i]|)
    ensures a[i] == b[i]
  {
    assert SameSafely(a[i], b[i]);
    SafeWhole(|a[i]|);
  }

  lemma AgreeTrans(a: seq<seq<byte>>, b: seq<seq<byte>>, c: seq<seq<byte>>)
    requires Agree(a, b) && Agree(b, c)
    ensures Agree(a, c)
  {
    forall i | 0 <= i < |a| ensures SameSafely(a[i], c[i]) {
      assert SameSafely(a[i], b[i]) && SameSafely(b[i], c[i]);
    }
  }

  lemma AbstractAgrees(a: seq<seq<byte>>, b: seq<seq<byte>>, op: Op, key: u16)
    requires Agree(a, b)
    ensures Agree(Abstract(a, op, key), Abstract(b, op, key))
  {}

  lemma CopiedAgrees(r: Rec)
    requires r.Wf() && r.Live()
    ensures SameSafely(Copied(r).Value(), r.Value())
  {
    var c := CopiedLength(|r.body|);
    assert Safe(r.len) <= c;
    assert Copied(r).body[..c] == r.body[..c];
    assert Copied(r).Value()[..Safe(r.len)] == Copied(r).body[..c][..Safe(r.len)];
    assert r.Value()[..Safe(r.len)] == r.body[..c][..Safe(r.len)];
  }

  lemma {:induction false} SeenLive(log: Log, n: nat, key: u16)
    requires n <= |log|
    ensures forall i :: 0 <= i < |Seen(log, n, key)| ==> Seen(log, n, key)[i].Live()
    decreases n
  {
    if n > 0 { SeenLive(log, n - 1, key); }
  }

  /** Compaction of a key in shape keeps number and lengths of its values, and all octets but those the copy loop loses. */
  lemma CompactAgrees(log: Log, key: u16)
    requires AllWf(log) && Shape(log, key)
    ensures AllWf(Compact(log)) && Agree(List(Compact(log), key), List(log, key))
  {
    var c, s := Compact(log), Seen(log, |log|, key);
    CompactWf(log, |log|);
    ShapeKeeps(log, key);
    SeenLive(log, |log|, key);
    ListOfSeen(log, key);
    ListOfSeen(c, key);
    forall i | 0 <= i < |s| ensures SameSafely(List(c, key)[i], List(log, key)[i]) {
      assert Seen(c, |c|, key)[i] == Copied(s[i]);
      CopiedAgrees(s[i]);
    }
  }

  lemma ApplyAgrees(log: Log, op: Op, key: u16)
    requires AllWf(log) && Sized(op) && Shape(log, key)
    ensures AllWf(Apply(log, op))
    ensures Agree(List(Apply(log, op), key), Abstract(List(log, key), op, key))
  {
    match op
    case Refused(_) =>
      CompactAgrees(log, key);
    case Set(k, value, reserved, full) =>
      AppendAgrees(log, NewRec(k, true, value, reserved), full, op, key);
    case Add(k, value, reserved, full) =>
      assert Visible(log, |log|, k) == [] <==> List(log, k) == [];
      AppendAgrees(log, NewRec(k, Visible(log, |log|, k) == [], value, reserved), full, op, key);
    case Remove(k, index) =>
      DeleteRefines(log, k, index, key);
  }

  lemma AppendAgrees(log: Log, r: Rec, full: bool, op: Op, key: u16)
    requires AllWf(log) && r.Wf() && r.Live() && Shape(log, key)
    requires (op.Set? || op.Add?) && op.key == r.key && op.value == r.Value()
    requires r.Index0() <==> op.Set? || List(log, r.key) == []
    ensures AllWf(Room(log, full) + [r])
    ensures Agree(List(Room(log, full) + [r], key), Abstract(List(log, key), op, key))
  {
    CompactWf(log, |log|);
    CompactAgrees(log, key);
    AppendLive(Room(log, full), r, key);
    AbstractAgrees(List(Room(log, full), key), List(log, key), op, key);
  }

  /**
   * Every run of the store is, key by key, a run of plain lists: compactions, wherever they fall, do not show, except
   * that the last octets of values of lossy length may be lost.
   */
  lemma {:induction false} RunRefines(log: Log, ops: seq<Op>, key: u16)
    requires AllowedRun(log, ops, key) && Shape(log, key) && AllWf(log)
    ensures AllWf(Run(log, ops))
    ensures Agree(List(Run(log, ops), key), AbstractRun(List(log, key), ops, key))
    decreases |ops|
  {
    if ops != [] {
      var n := |ops| - 1;
      var l := Run(log, ops[..n]);
      RunStep(log, ops, key);
      RunRefines(log, ops[..n], key);
      RunKeepsShape(log, ops[..n], key);
      ApplyAgrees(l, ops[n], key);
      AbstractAgrees(List(l, key), AbstractRun(List(log, key), ops[..n], key), ops[n], key);
      AgreeTrans(List(Run(log, ops), key), Abstract(List(l, key), ops[n], key), AbstractRun(List(log, key), ops, key));
    }
  }

  /** In particular every get finds the right value if its length is lossless, whatever else the store holds. */
  lemma RunValue(log: Log, ops: seq<Op>, key: u16, i: nat)
    requires AllowedRun(log, ops, key) && Shape(log, key) && AllWf(log)
    requires var list := AbstractRun(List(log, key), ops, key);
             i < |list| && |list[i]| <= MAX_LEN && Lossless(|list[i]|)
    ensures AllWf(Run(log, ops)) && i < |List(Run(log, ops), key)|
    ensures List(Run(log, ops), key)[i] == AbstractRun(List(log, key), ops, key)[i]
  {
    RunRefines(log, ops, key);
    assert SameSafely(List(Run(log, ops), key)[i], AbstractRun(List(log, key), ops, key)[i]);
    AgreeLossless(List(Run(log, ops), key), AbstractRun(List(log, key), ops, key), i);
  }
}
