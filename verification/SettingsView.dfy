/** What a settings log means: for every key a list of values, and how each operation changes that list. */
module SettingsView {
  import opened Bytes
  import opened SettingsLog

  /** One scan step: how the record at `j` extends a visible list. */
  function Extend(v: seq<nat>, j: nat, r: Rec, key: u16): seq<nat> {
    if r.key != key then v else
    (if r.Index0() then [] else v) + (if r.Live() then [j] else [])
  }

  /** Positions of the visible records of `key` among the first `n`: the live ones since the last index-0 record. */
  function Visible(log: Log, n: nat, key: u16): (v: seq<nat>)
    requires n <= |log|
    ensures forall i :: 0 <= i < |v| ==> v[i] < n && log[v[i]].key == key && log[v[i]].Live()
  {
    if n == 0 then [] else
    Extend(Visible(log, n - 1, key), n - 1, log[n - 1], key)
  }

  function ValuesAt(log: Log, v: seq<nat>): seq<seq<byte>>
    requires AllWf(log) && forall i :: 0 <= i < |v| ==> v[i] < |log|
  {
    seq(|v|, i requires 0 <= i < |v| => log[v[i]].Value())
  }

  /** The list of values stored under `key`: element `i` is what a get of index `i` returns. */
  function List(log: Log, key: u16): seq<seq<byte>>
    requires AllWf(log)
  {
    ValuesAt(log, Visible(log, |log|, key))
  }

  /** The visible list depends only on keys, flags of the first `n` records. */
  lemma {:induction false} VisiblePrefix(a: Log, b: Log, n: nat, key: u16)
    requires n <= |a| && n <= |b|
    requires forall i :: 0 <= i < n ==> a[i].key == b[i].key && (a[i].key == key ==> a[i].flags == b[i].flags)
    ensures Visible(a, n, key) == Visible(b, n, key)
    decreases n
  {
    if n > 0 { VisiblePrefix(a, b, n - 1, key); }
  }

  /* ---- append ---- */

  lemma AppendView(log: Log, r: Rec, key: u16)
    ensures Visible(log + [r], |log + [r]|, key) == Extend(Visible(log, |log|, key), |log|, r, key)
  {
    VisiblePrefix(log + [r], log, |log|, key);
    assert (log + [r])[|log|] == r;
  }

  lemma AppendValues(log: Log, r: Rec, v: seq<nat>)
    requires AllWf(log) && r.Wf() && forall i :: 0 <= i < |v| ==> v[i] < |log|
    ensures ValuesAt(log + [r], v) == ValuesAt(log, v)
    ensures ValuesAt(log + [r], v + [|log|]) == ValuesAt(log, v) + [r.Value()]
  {}

  /** A live record marked index 0 replaces the whole list of its key; an unmarked one extends it; no other key moves. */
  lemma AppendLive(log: Log, r: Rec, key: u16)
    requires AllWf(log) && r.Wf() && r.Live()
    ensures List(log + [r], key) ==
            if key != r.key then List(log, key)
            else if r.Index0() then [r.Value()] else List(log, key) + [r.Value()]
  {
    var v := Visible(log, |log|, key);
    AppendView(log, r, key);
    AppendValues(log, r, v);
    AppendValues(log, r, []);
    assert v + [] == v && ValuesAt(log, []) == [];
  }

  /** A record not yet complete shows nothing; if marked index 0 it hides the list of its own key. */
  lemma AppendPartial(log: Log, r: Rec, key: u16)
    requires AllWf(log) && r.Wf() && !r.Live()
    ensures List(log + [r], key) == if key == r.key && r.Index0() then [] else List(log, key)
  {
    var v := Visible(log, |log|, key);
    AppendView(log, r, key);
    AppendValues(log, r, v);
    assert v + [] == v && ValuesAt(log + [r], []) == [];
  }

  /* ---- delete ---- */

  const ALL := -1

  /** The running index the delete scan holds when it reaches record `j` of `key`. */
  function IndexAt(log: Log, j: nat, key: u16): nat
    requires j < |log|
  {
    if log[j].Index0() then 0 else |Visible(log, j, key)|
  }

  function DeletedRec(r: Rec): Rec { r.(flags := r.flags.(deleted := true)) }

  function PromotedRec(r: Rec): Rec { r.(flags := r.flags.(index0 := true)) }

  /** Record `j` after a delete of `index` under `key`. */
  function AfterDelete(log: Log, j: nat, key: u16, index: int): Rec
    requires j < |log|
  {
    var r := log[j];
    if r.key != key || !r.Live() then r else
    var r1 := if index == IndexAt(log, j, key) || index == ALL then DeletedRec(r) else r;
    if IndexAt(log, j, key) == 1 && index == 0 then PromotedRec(r1) else r1
  }

  function Delete(log: Log, key: u16, index: int): (d: Log)
    ensures |d| == |log|
  {
    seq(|log|, j requires 0 <= j < |log| => AfterDelete(log, j, key, index))
  }

  function RemoveAt<T>(s: seq<T>, i: int): seq<T> {
    if i == ALL then [] else if 0 <= i < |s| then s[..i] + s[i + 1..] else s
  }

  /** Exactly the element at `i` is gone, or everything for -1, or nothing if there is no such element. */
  lemma RemoveAtExact<T>(s: seq<T>, i: int)
    ensures |RemoveAt(s, i)| == if i == -1 then 0 else if 0 <= i < |s| then |s| - 1 else |s|
    ensures forall k :: 0 <= k < |RemoveAt(s, i)| ==> RemoveAt(s, i)[k] == if 0 <= i <= k then s[k + 1] else s[k]
  {}

  lemma DeleteStep(log: Log, j: nat, key: u16, index: int, d: Rec)
    requires j < |log| && d == AfterDelete(log, j, key, index)
    ensures var v := Visible(log, j, key);
            Extend(RemoveAt(v, index), j, d, key) == RemoveAt(Extend(v, j, log[j], key), index)
  {
    var v := Visible(log, j, key);
    if log[j].key == key {
      DeleteSeen(v, j, log[j], key, index, d);
    }
  }

  /** The step on a list `v` alone: `d` is the record as the scan rewrites it. */
  lemma DeleteSeen(v: seq<nat>, j: nat, r: Rec, key: u16, index: int, d: Rec)
    requires r.key == key == d.key
    requires var i := if r.Index0() then 0 else |v|;
             && d.Live() == (r.Live() && index != i && index != ALL)
             && d.Index0() == (r.Index0() || (r.Live() && i == 1 && index == 0))
    ensures Extend(RemoveAt(v, index), j, d, key) == RemoveAt(Extend(v, j, r, key), index)
  {
    if r.Index0() {
    } else if r.Live() {
      RemoveLast(v, j, index);
    } else {
      assert v + [] == v && RemoveAt(v, index) + [] == RemoveAt(v, index);
    }
  }

  lemma RemoveLast<T>(v: seq<T>, x: T, index: int)
    ensures RemoveAt(v + [x], index) == if index == ALL then [] else if index == |v| then v else RemoveAt(v, index) + [x]
  {
    if 0 <= index < |v| {
      assert (v + [x])[..index] + (v + [x])[index + 1..] == v[..index] + v[index + 1..] + [x];
    }
  }

  lemma {:induction false} DeleteVisible(log: Log, n: nat, key: u16, index: int)
    requires n <= |log|
    ensures Visible(Delete(log, key, index), n, key) == RemoveAt(Visible(log, n, key), index)
    decreases n
  {
    if n > 0 {
      DeleteVisible(log, n - 1, key, index);
      DeleteStep(log, n - 1, key, index, Delete(log, key, index)[n - 1]);
    }
  }

  lemma SameValues(a: Log, b: Log, v: seq<nat>)
    requires AllWf(a) && AllWf(b) && |a| == |b|
    requires forall j :: 0 <= j < |a| ==> a[j].body == b[j].body && a[j].len == b[j].len
    requires forall i :: 0 <= i < |v| ==> v[i] < |a|
    ensures ValuesAt(a, v) == ValuesAt(b, v)
  {}

  lemma RemoveValue(log: Log, v: seq<nat>, index: int)
    requires AllWf(log) && forall i :: 0 <= i < |v| ==> v[i] < |log|
    ensures forall i :: 0 <= i < |RemoveAt(v, index)| ==> RemoveAt(v, index)[i] < |log|
    ensures ValuesAt(log, RemoveAt(v, index)) == RemoveAt(ValuesAt(log, v), index)
  {
    if index != ALL && 0 <= index < |v| {
      var w, x := RemoveAt(v, index), ValuesAt(log, v);
      assert ValuesAt(log, w) == x[..index] + x[index + 1..];
    }
  }

  lemma DeleteWf(log: Log, key: u16, index: int)
    requires AllWf(log)
    ensures AllWf(Delete(log, key, index))
  {
    var d := Delete(log, key, index);
    forall j | 0 <= j < |d| ensures d[j].Wf() {
      assert log[j].Wf() && d[j] == AfterDelete(log, j, key, index);
    }
  }

  /**
   * Deleting element `index` removes exactly that element (everything for -1) and leaves every other key alone,
   * although the scan also rewrites superseded groups of the same key further back in the log.
   */
  lemma DeleteRefines(log: Log, key: u16, index: int, other: u16)
    requires AllWf(log)
    ensures AllWf(Delete(log, key, index))
    ensures List(Delete(log, key, index), other) ==
            if other == key then RemoveAt(List(log, key), index) else List(log, other)
  {
    var d := Delete(log, key, index);
    DeleteWf(log, key, index);
    var v := Visible(log, |log|, other);
    if other == key {
      DeleteVisible(log, |log|, key, index);
      SameValues(d, log, RemoveAt(v, index));
      RemoveValue(log, v, index);
    } else {
      VisiblePrefix(d, log, |log|, other);
      SameValues(d, log, v);
    }
  }
}
