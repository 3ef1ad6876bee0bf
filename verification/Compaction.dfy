/** Compaction of a settings log: which records it keeps, what of each it copies, and when meaning survives. */
module Compaction {
  import opened Bytes
  import opened SettingsLog
  import opened SettingsView

  /* ---- what the copy loop transfers ---- */

  const CHUNK := 256

  /** Payload octets that reach the new area: a last stretch of at most 8 octets is left behind. */
  function CopiedLength(padded: nat): (c: nat)
    ensures c <= padded
  {
    if padded >= CHUNK then CHUNK + CopiedLength(padded - CHUNK) else if padded <= HEADER then 0 else padded
  }

  /** The padded length mod 256 is 0 or above 8. */
  predicate Lossless(len: u16) {
    var m := AlignLength(len) % 256;
    m == 0 || m > 8
  }

  lemma {:induction false} CopiedLengthMod(padded: nat)
    ensures CopiedLength(padded) == if 0 < padded % 256 <= 8 then padded - padded % 256 else padded
  {
    if padded >= CHUNK { CopiedLengthMod(padded - CHUNK); }
  }

  function Copied(r: Rec): Rec {
    var c := CopiedLength(|r.body|);
    r.(body := r.body[..c] + Fill(|r.body| - c))
  }

  /** A record is copied whole, for every content, exactly when its padded length mod 256 is 0 or above 8. */
  lemma CopiedWhole(r: Rec)
    requires r.Wf() && r.len <= MAX_LEN
    ensures Copied(r).Wf()
    ensures !Lossless(r.len) ==> CopiedLength(|r.body|) < r.len
    ensures Copied(r).Value() == r.Value() <==> Lossless(r.len) || r.body[CopiedLength(|r.body|)..r.len] == Fill(r.len - CopiedLength(|r.body|))
  {
    var c := CopiedLength(|r.body|);
    CopiedLengthMod(|r.body|);
    if !Lossless(r.len) {
      assert c < r.len;
      CopiedTail(r, c);
    } else {
      assert Copied(r).body == r.body;
    }
  }

  lemma CopiedTail(r: Rec, c: nat)
    requires c == CopiedLength(|r.body|) && c <= r.len <= |r.body|
    ensures Copied(r).Value() == r.Value() <==> r.body[c..r.len] == Fill(r.len - c)
  {
    var v, w := Copied(r).Value(), r.Value();
    assert v == r.body[..c] + Fill(r.len - c) && w == r.body[..c] + r.body[c..r.len];
    assert v[c..] == Fill(r.len - c) && w[c..] == r.body[c..r.len];
  }

  /** Every length that is not lossless has a payload that compaction destroys. */
  lemma LossyWitness(r: Rec) returns (bad: Rec)
    requires r.Wf() && r.len <= MAX_LEN && !Lossless(r.len)
    ensures bad.(body := r.body) == r && bad.Wf() && Copied(bad).Value() != bad.Value()
  {
    bad := r.(body := seq(|r.body|, _ => 0));
    CopiedWhole(bad);
    var c := CopiedLength(|bad.body|);
    assert bad.body[c..bad.len][0] == 0 && Fill(bad.len - c)[0] == 0xFF;
  }

  /* ---- which records survive ---- */

  /** Record `m` is a live index-0 record that supersedes the earlier record `j`. */
  predicate Supersedes(log: Log, j: nat, m: nat)
    requires j < |log| && m < |log|
  {
    j < m && log[m].key == log[j].key && log[m].Live() && log[m].Index0()
  }

  predicate Survives(log: Log, j: nat)
    requires j < |log|
  {
    log[j].Live() && forall m :: 0 <= m < |log| ==> !Supersedes(log, j, m)
  }

  /** Positions, among the first `n`, of the records a compaction of `log` copies. */
  function Kept(log: Log, n: nat): (p: seq<nat>)
    requires n <= |log|
    ensures forall a :: 0 <= a < |p| ==> p[a] < n && Survives(log, p[a])
    ensures forall a, b :: 0 <= a < b < |p| ==> p[a] < p[b]
  {
    if n == 0 then [] else
    if Survives(log, n - 1) then Kept(log, n - 1) + [n - 1] else Kept(log, n - 1)
  }

  function CompactPrefix(log: Log, n: nat): (c: Log)
    requires n <= |log|
    ensures |c| == |Kept(log, n)|
    ensures forall a :: 0 <= a < |c| ==> c[a] == Copied(log[Kept(log, n)[a]])
  {
    if n == 0 then [] else
    if Survives(log, n - 1) then CompactPrefix(log, n - 1) + [Copied(log[n - 1])] else CompactPrefix(log, n - 1)
  }

  function Compact(log: Log): Log { CompactPrefix(log, |log|) }

  lemma CompactWf(log: Log, n: nat)
    requires AllWf(log) && n <= |log|
    ensures AllWf(CompactPrefix(log, n))
  {
    var c := CompactPrefix(log, n);
    forall a | 0 <= a < |c| ensures c[a].Wf() {
      assert log[Kept(log, n)[a]].Wf() && Survives(log, Kept(log, n)[a]);
      CopiedWhole(log[Kept(log, n)[a]]);
    }
  }

  /** Compaction never needs more room than the log it starts from. */
  lemma {:induction false} CompactShrinks(log: Log, n: nat)
    requires n <= |log|
    ensures Off(CompactPrefix(log, n), |CompactPrefix(log, n)|) <= Off(log, n)
    decreases n
  {
    if n > 0 {
      CompactShrinks(log, n - 1);
      if Survives(log, n - 1) { OffAppend(CompactPrefix(log, n - 1), Copied(log[n - 1])); }
    }
  }

  lemma {:induction false} KeptAll(log: Log, n: nat)
    requires n <= |log| && forall j :: 0 <= j < |log| ==> Survives(log, j) && Copied(log[j]) == log[j]
    ensures CompactPrefix(log, n) == log[..n]
    decreases n
  {
    if n > 0 { KeptAll(log, n - 1); }
  }

  lemma CopiedTwice(r: Rec)
    ensures Copied(Copied(r)) == Copied(r)
  {
    var c := CopiedLength(|r.body|);
    assert Copied(r).body[..c] == r.body[..c];
  }

  lemma CompactedSurvives(log: Log, a: nat)
    requires a < |Compact(log)|
    ensures Survives(Compact(log), a)
  {
    var c, p := Compact(log), Kept(log, |log|);
    assert Survives(log, p[a]);
    forall b | 0 <= b < |c| ensures !Supersedes(c, a, b) {
      if a < b { assert !Supersedes(log, p[a], p[b]); }
    }
  }

  /** Compacting a compacted log changes nothing at all. */
  lemma CompactIdempotent(log: Log)
    ensures Compact(Compact(log)) == Compact(log)
  {
    var c, p := Compact(log), Kept(log, |log|);
    forall a | 0 <= a < |c| ensures Survives(c, a) && Copied(c[a]) == c[a] {
      CompactedSurvives(log, a);
      CopiedTwice(log[p[a]]);
    }
    KeptAll(c, |c|);
    assert c[..|c|] == c;
  }

  /* ---- when the visible lists survive ---- */

  /** Record `m`, of whatever state, hides the live record `j` of `key` from lookups. */
  predicate Hides(log: Log, key: u16, j: nat, m: nat)
    requires j < |log| && m < |log|
  {
    j < m && log[j].key == key && log[m].key == key && log[j].Live() && log[m].Index0()
  }

  ghost predicate Superseded(log: Log, j: nat)
    requires j < |log|
  {
    exists i :: 0 <= i < |log| && Supersedes(log, j, i)
  }

  /** Every live record of `key` with a later index-0 record, of any state, has a later live one. */
  ghost predicate Shape(log: Log, key: u16) {
    forall j, m :: 0 <= j < |log| && 0 <= m < |log| && Hides(log, key, j, m) ==> Superseded(log, j)
  }

  /** How many of the kept records among the first `n` belong to `key`. */
  function KeptOf(log: Log, n: nat, key: u16): nat
    requires n <= |log|
  {
    if n == 0 then 0 else KeptOf(log, n - 1, key) + if log[n - 1].key == key && Survives(log, n - 1) then 1 else 0
  }

  lemma {:induction false} NoneKept(log: Log, n: nat, key: u16, m: nat)
    requires n <= m < |log|
    requires log[m].key == key && log[m].Index0()
    requires log[m].Live() || Shape(log, key)
    ensures KeptOf(log, n, key) == 0
    decreases n
  {
    if n > 0 {
      NoneKept(log, n - 1, key, m);
      if log[n - 1].key == key && log[n - 1].Live() {
        if log[m].Live() {
          assert Supersedes(log, n - 1, m);
        } else {
          assert Hides(log, key, n - 1, m);
        }
      }
    }
  }

  /** One scan step on the visible records themselves. */
  function See(s: seq<Rec>, r: Rec, key: u16): seq<Rec> {
    if r.key != key then s else (if r.Index0() then [] else s) + (if r.Live() then [r] else [])
  }

  /** The visible records of `key` among the first `n`. */
  function Seen(log: Log, n: nat, key: u16): seq<Rec>
    requires n <= |log|
  {
    if n == 0 then [] else See(Seen(log, n - 1, key), log[n - 1], key)
  }

  ghost predicate RecordsOf(log: Log, s: seq<Rec>, v: seq<nat>) {
    |s| == |v| && forall i :: 0 <= i < |s| ==> v[i] < |log| && s[i] == log[v[i]]
  }

  lemma {:induction false} SeenVisible(log: Log, n: nat, key: u16)
    requires n <= |log|
    ensures RecordsOf(log, Seen(log, n, key), Visible(log, n, key))
    decreases n
  {
    if n > 0 {
      SeenVisible(log, n - 1, key);
      SeenStep(log, n - 1, Seen(log, n - 1, key), Visible(log, n - 1, key), key);
    }
  }

  lemma SeenStep(log: Log, n: nat, s: seq<Rec>, v: seq<nat>, key: u16)
    requires n < |log| && RecordsOf(log, s, v)
    ensures RecordsOf(log, See(s, log[n], key), Extend(v, n, log[n], key))
  {}

  lemma {:induction false} SeenPrefix(a: Log, b: Log, n: nat, key: u16)
    requires n <= |a| && n <= |b| && forall i :: 0 <= i < n ==> a[i] == b[i]
    ensures Seen(a, n, key) == Seen(b, n, key)
    decreases n
  {
    if n > 0 { SeenPrefix(a, b, n - 1, key); }
  }

  function CopiedAll(s: seq<Rec>): seq<Rec> { seq(|s|, i requires 0 <= i < |s| => Copied(s[i])) }

  function SeenCompacted(log: Log, n: nat, key: u16): seq<Rec>
    requires n <= |log|
  {
    Seen(CompactPrefix(log, n), |CompactPrefix(log, n)|, key)
  }

  lemma SeenCompactedStep(log: Log, n: nat, key: u16)
    requires 0 < n <= |log|
    ensures SeenCompacted(log, n, key) ==
            if Survives(log, n - 1) then See(SeenCompacted(log, n - 1, key), Copied(log[n - 1]), key)
            else SeenCompacted(log, n - 1, key)
  {
    var c := CompactPrefix(log, n - 1);
    SeenPrefix(CompactPrefix(log, n), c, |c|, key);
  }

  /** All kept records of a key are visible after compaction. */
  lemma {:induction false} KeptAreSeen(log: Log, n: nat, key: u16)
    requires n <= |log|
    ensures |SeenCompacted(log, n, key)| == KeptOf(log, n, key)
    decreases n
  {
    if n > 0 {
      KeptAreSeen(log, n - 1, key);
      SeenCompactedStep(log, n, key);
      var r := log[n - 1];
      if Survives(log, n - 1) && r.key == key && r.Index0() { NoneKept(log, n - 1, key, n - 1); }
    }
  }

  /** With no index-0 record of `key` from `from` on, kept and visible records grow together. */
  lemma {:induction false} GrowTogether(log: Log, from: nat, n: nat, key: u16)
    requires from <= n <= |log|
    requires forall m :: from <= m < |log| && log[m].key == key ==> !log[m].Index0()
    ensures |Seen(log, n, key)| + KeptOf(log, from, key) == |Seen(log, from, key)| + KeptOf(log, n, key)
    decreases n
  {
    if n > from {
      GrowTogether(log, from, n - 1, key);
      assert log[n - 1].key == key && log[n - 1].Live() ==> Survives(log, n - 1);
    }
  }

  /** One unmarked record grows both views in the same way. */
  lemma GrowStep(s: seq<Rec>, r: Rec, key: u16)
    requires r.key == key ==> !r.Index0()
    ensures CopiedAll(See(s, r, key)) ==
            if r.key == key && r.Live() then See(CopiedAll(s), Copied(r), key) else CopiedAll(s)
  {
    assert s + [] == s;
    assert CopiedAll(s + [r]) == CopiedAll(s) + [Copied(r)];
  }

  lemma {:induction false} CopiesGrowTogether(log: Log, from: nat, n: nat, key: u16)
    requires from <= n <= |log|
    requires forall m :: from <= m < |log| && log[m].key == key ==> !log[m].Index0()
    requires SeenCompacted(log, from, key) == CopiedAll(Seen(log, from, key))
    ensures SeenCompacted(log, n, key) == CopiedAll(Seen(log, n, key))
    decreases n
  {
    if n > from {
      CopiesGrowTogether(log, from, n - 1, key);
      SeenCompactedStep(log, n, key);
      var r, s := log[n - 1], Seen(log, n - 1, key);
      GrowStep(s, r, key);
      if r.key == key {
        assert r.Live() <==> Survives(log, n - 1);
      } else {
        assert See(CopiedAll(s), Copied(r), key) == CopiedAll(s);
      }
    }
  }

  /** The position just behind the last index-0 record of `key` among the first `n` (0 if there is none). */
  function LastGroup(log: Log, n: nat, key: u16): (g: nat)
    requires n <= |log|
    ensures g <= n
    ensures forall m :: g <= m < n && log[m].key == key ==> !log[m].Index0()
    ensures g > 0 ==> log[g - 1].key == key && log[g - 1].Index0()
  {
    if n == 0 then 0 else
    if log[n - 1].key == key && log[n - 1].Index0() then n else LastGroup(log, n - 1, key)
  }

  /** In shape, compaction keeps the visible records of a key, in order, up to the copy loop's loss. */
  lemma ShapeKeeps(log: Log, key: u16)
    requires Shape(log, key)
    ensures SeenCompacted(log, |log|, key) == CopiedAll(Seen(log, |log|, key))
  {
    var g := LastGroup(log, |log|, key);
    StartTogether(log, g, key);
    CopiesGrowTogether(log, g, |log|, key);
  }

  lemma StartTogether(log: Log, g: nat, key: u16)
    requires Shape(log, key) && g == LastGroup(log, |log|, key)
    ensures SeenCompacted(log, g, key) == CopiedAll(Seen(log, g, key))
  {
    if g > 0 {
      var r := log[g - 1];
      assert SeenCompacted(log, g - 1, key) == [] by {
        NoneKept(log, g - 1, key, g - 1);
        KeptAreSeen(log, g - 1, key);
      }
      SeenCompactedStep(log, g, key);
      assert r.Live() <==> Survives(log, g - 1);
      assert Seen(log, g, key) == if r.Live() then [r] else [];
    }
  }

  /** Out of shape, some superseded record comes back: the list after compaction is strictly longer. */
  lemma OutOfShapeGrows(log: Log, key: u16)
    requires !Shape(log, key)
    ensures |SeenCompacted(log, |log|, key)| > |Seen(log, |log|, key)|
  {
    var g := StaleRecord(log, key);
    GrowTogether(log, g, |log|, key);
    KeptAreSeen(log, |log|, key);
  }

  /** Behind the last group, which is not live, some kept record of the key is left. */
  lemma StaleRecord(log: Log, key: u16) returns (g: nat)
    requires !Shape(log, key)
    ensures g <= |log| && forall m :: g <= m < |log| && log[m].key == key ==> !log[m].Index0()
    ensures KeptOf(log, g, key) >= 1 && Seen(log, g, key) == []
  {
    var j, m :| 0 <= j < |log| && 0 <= m < |log| && Hides(log, key, j, m) && !Superseded(log, j);
    g := LastGroup(log, |log|, key);
    assert j < g - 1 by { assert !log[m].Index0() || m < g; }
    assert KeptOf(log, j + 1, key) >= 1 by { assert Survives(log, j); }
    assert !log[g - 1].Live() by { assert !Supersedes(log, j, g - 1); }
    KeptOfGrows(log, j + 1, g, key);
  }

  lemma {:induction false} KeptOfGrows(log: Log, i: nat, n: nat, key: u16)
    requires i <= n <= |log|
    ensures KeptOf(log, i, key) <= KeptOf(log, n, key)
    decreases n
  {
    if i < n { KeptOfGrows(log, i, n - 1, key); }
  }

  /**
   * The exact condition: compaction preserves found/not-found and length of every index of a key if and only if
   * the key is in shape.
   */
  lemma CompactionExact(log: Log, key: u16)
    ensures Shape(log, key) <==> |SeenCompacted(log, |log|, key)| == |Seen(log, |log|, key)|
    ensures Shape(log, key) <==> SeenCompacted(log, |log|, key) == CopiedAll(Seen(log, |log|, key))
  {
    if Shape(log, key) {
      ShapeKeeps(log, key);
    } else {
      OutOfShapeGrows(log, key);
    }
  }

  /**
   * Compaction preserves the list of a key if and only if the key is in shape and the copy loop loses nothing that
   * matters of each visible value.
   */
  lemma CompactionPreserves(log: Log, key: u16)
    requires AllWf(log)
    ensures AllWf(Compact(log))
    ensures List(Compact(log), key) == List(log, key) <==>
            Shape(log, key) && forall i :: 0 <= i < |Seen(log, |log|, key)| ==>
              SameValue(Seen(log, |log|, key)[i])
  {
    CompactWf(log, |log|);
    var c, s := Compact(log), Seen(log, |log|, key);
    CompactionExact(log, key);
    ListOfSeen(log, key);
    ListOfSeen(c, key);
    if Shape(log, key) {
      ListsSame(s, Seen(c, |c|, key), List(log, key), List(c, key));
    }
  }

  lemma ListsSame(s: seq<Rec>, t: seq<Rec>, v: seq<seq<byte>>, w: seq<seq<byte>>)
    requires t == CopiedAll(s) && |s| == |v| && |t| == |w|
    requires forall i :: 0 <= i < |s| ==> s[i].Wf() && v[i] == s[i].Value()
    requires forall i :: 0 <= i < |t| ==> t[i].Wf() && w[i] == t[i].Value()
    ensures w == v <==> forall i :: 0 <= i < |s| ==> SameValue(s[i])
  {
    forall i | 0 <= i < |s| ensures w[i] == v[i] <==> SameValue(s[i]) {
      assert t[i] == Copied(s[i]);
    }
  }

  predicate SameValue(r: Rec) {
    r.Wf() && Copied(r).Wf() && Copied(r).Value() == r.Value()
  }

  lemma ListOfSeen(log: Log, key: u16)
    requires AllWf(log)
    ensures |List(log, key)| == |Seen(log, |log|, key)|
    ensures forall i :: 0 <= i < |List(log, key)| ==>
              Seen(log, |log|, key)[i].Wf() && List(log, key)[i] == Seen(log, |log|, key)[i].Value()
  {
    SeenVisible(log, |log|, key);
    forall i | 0 <= i < |List(log, key)|
      ensures Seen(log, |log|, key)[i].Wf() && List(log, key)[i] == Seen(log, |log|, key)[i].Value()
    {
      assert log[Visible(log, |log|, key)[i]].Wf();
    }
  }
}
