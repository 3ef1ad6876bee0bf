/** Covering a run of 4 KB sectors by erase blocks: the greedy choice is exact and uses the fewest commands. */
module EraseCover {

  const SECTORS := 256   // on the whole chip

  /** One erase command, in sectors. */
  datatype Block = Block(first: nat, count: nat) {
    /** A sector, a 32 KB block, a 64 KB block or the chip, at its natural alignment. */
    predicate Aligned() {
      || (count == 1 && first < SECTORS)
      || (count == 8 && first % 8 == 0 && first + 8 <= SECTORS)
      || (count == 16 && first % 16 == 0 && first + 16 <= SECTORS)
      || (count == SECTORS && first == 0)
    }

    predicate Contains(x: int) { first <= x < first + count }
  }

  /** The largest block that starts at `s` and stays below `e`. */
  function Largest(s: nat, e: nat): (n: nat)
    requires s < e <= SECTORS
    ensures n > 0 && s + n <= e && Block(s, n).Aligned()
  {
    if s == 0 && e == SECTORS then SECTORS
    else if s % 16 == 0 && s + 16 <= e then 16
    else if s % 8 == 0 && s + 8 <= e then 8
    else 1
  }

  function Greedy(s: nat, e: nat): seq<Block>
    requires s <= e <= SECTORS
    decreases e - s
  {
    if s == e then [] else [Block(s, Largest(s, e))] + Greedy(s + Largest(s, e), e)
  }

  /** How many of the blocks erase sector `x`. */
  function Erasures(blocks: seq<Block>, x: int): nat {
    if blocks == [] then 0 else (if blocks[0].Contains(x) then 1 else 0) + Erasures(blocks[1..], x)
  }

  /** Each sector of the run is erased exactly once, and no other sector at all. */
  lemma {:induction false} GreedyExact(s: nat, e: nat, x: int)
    requires s <= e <= SECTORS
    ensures Erasures(Greedy(s, e), x) == if s <= x < e then 1 else 0
    decreases e - s
  {
    if s < e {
      GreedyExact(s + Largest(s, e), e, x);
      assert Greedy(s, e)[1..] == Greedy(s + Largest(s, e), e);
    }
  }

  ghost predicate Hit(blocks: seq<Block>, x: int) { exists b :: b in blocks && b.Contains(x) }

  /** The blocks, all of them aligned, erase the sectors from `s` up to `e` and nothing else. */
  ghost predicate Covers(blocks: seq<Block>, s: nat, e: nat) {
    && (forall i :: 0 <= i < |blocks| ==> blocks[i].Aligned() && s <= blocks[i].first && blocks[i].first + blocks[i].count <= e)
    && (forall x :: s <= x < e ==> Hit(blocks, x))
  }

  /** The blocks that start at or behind sector `m`. */
  function From(blocks: seq<Block>, m: nat): (r: seq<Block>)
    ensures forall i :: 0 <= i < |r| ==> r[i] in blocks && r[i].first >= m
    ensures forall b :: b in blocks && b.first >= m ==> b in r
    ensures |r| <= |blocks|
  {
    if blocks == [] then [] else
    (if blocks[0].first >= m then [blocks[0]] else []) + From(blocks[1..], m)
  }

  lemma {:induction false} FromFewer(blocks: seq<Block>, m: nat, i: nat)
    requires i < |blocks| && blocks[i].first < m
    ensures |From(blocks, m)| < |blocks|
  {
    if i > 0 { FromFewer(blocks[1..], m, i - 1); }
  }

  /** No aligned block inside the run straddles the end of its largest first block. */
  lemma NoStraddle(s: nat, e: nat, b: Block)
    requires s < e <= SECTORS && b.Aligned() && s <= b.first && b.first + b.count <= e
    ensures b.first >= s + Largest(s, e) || b.first + b.count <= s + Largest(s, e)
  {
    var n := Largest(s, e);
    if b.first < s + n < b.first + b.count {
      if n == 16 {
        Gap16(s, b.first);
      } else if n == 8 {
        Gap8(s, b.first);
      }
    }
  }

  /** Two multiples of 8 less than 8 apart are equal. */
  lemma Gap8(s: nat, f: nat)
    requires s % 8 == 0 && s <= f < s + 8
    ensures f % 8 == 0 || f % 16 == 0 ==> f == s
  {
    if f % 16 == 0 { assert f == 8 * (2 * (f / 16)); }
  }

  /** A multiple of 8 less than 16 above a multiple of 16 is that multiple or lies midway to the next. */
  lemma Gap16(s: nat, f: nat)
    requires s % 16 == 0 && s <= f < s + 16
    ensures f % 16 == 0 ==> f == s
    ensures f % 8 == 0 ==> f == s || f == s + 8
  {
    assert s == 8 * (2 * (s / 16));
  }

  /** Every cover of the same sectors by aligned blocks needs at least as many commands. */
  lemma {:induction false} GreedyMinimal(s: nat, e: nat, blocks: seq<Block>)
    requires s <= e <= SECTORS && Covers(blocks, s, e)
    ensures |Greedy(s, e)| <= |blocks|
    decreases e - s
  {
    if s < e {
      var m := s + Largest(s, e);
      assert Hit(blocks, s);
      var b :| b in blocks && b.Contains(s);
      var i :| 0 <= i < |blocks| && blocks[i] == b;
      FromFewer(blocks, m, i);
      TailCovers(s, e, blocks);
      GreedyMinimal(m, e, From(blocks, m));
    }
  }

  lemma TailCovers(s: nat, e: nat, blocks: seq<Block>)
    requires s < e <= SECTORS && Covers(blocks, s, e)
    ensures Covers(From(blocks, s + Largest(s, e)), s + Largest(s, e), e)
  {
    var m := s + Largest(s, e);
    var tail := From(blocks, m);
    forall x | m <= x < e ensures Hit(tail, x) {
      assert Hit(blocks, x);
      var b :| b in blocks && b.Contains(x);
      NoStraddle(s, e, b);
      assert b in tail;
    }
  }

  /** The greedy plan is itself such a cover, so its length is the minimum. */
  lemma {:induction false} GreedyCovers(s: nat, e: nat)
    requires s <= e <= SECTORS
    ensures Covers(Greedy(s, e), s, e)
    decreases e - s
  {
    if s < e {
      var n := Largest(s, e);
      var g, rest := Greedy(s, e), Greedy(s + n, e);
      GreedyCovers(s + n, e);
      assert g == [Block(s, n)] + rest;
      forall x | s <= x < e ensures Hit(g, x) {
        if x < s + n {
          assert Block(s, n) in g && Block(s, n).Contains(x);
        } else {
          assert Hit(rest, x);
          var b :| b in rest && b.Contains(x);
          assert b in g;
        }
      }
    }
  }
}
