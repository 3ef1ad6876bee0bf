/** The settings store itself: lookups, appends, deletes, compaction and start-up over a flash device. */
module SettingsStore {
  import opened Bytes
  import opened SettingsLog
  import opened SettingsView
  import opened Compaction
  import opened SettingsRuns
  import opened FlashImage
  import opened FlashDevice
  import opened VectorWrite
  import opened BootImage
  import opened StoreImages

  datatype Status = Success | NotFound | NoBuffer

  /** The outcome of looking up element `index` of the visible positions `v`. */
  ghost predicate Located(log: Log, b: nat, v: seq<nat>, index: int, status: Status, address: nat, length: u16)
    requires forall i :: 0 <= i < |v| ==> v[i] < |log|
  {
    && status == (if 0 <= index < |v| then Success else NotFound)
    && (status.Success? ==> address == Position(b, log, v[index]) + HEADER && length == log[v[index]].len)
  }

  /** What a delete of `index` reports on a list of `n` elements. */
  function Outcome(index: int, n: nat): Status {
    if (index == ALL && n > 0) || 0 <= index < n then Success else NotFound
  }

  class Store {
    const flash: Flash
    const size: nat      // of one of the two areas
    var base: nat
    var used: nat
    ghost var log: Log

    ghost predicate Geometry() {
      && flash.pageSize > 0
      && size > 0 && OnPage(size, flash.pageSize) && size % 4 == 0
      && flash.cells.Length == 2 * size
    }

    ghost predicate Valid()
      reads this, flash.cells
    {
      && Geometry()
      && Boots(flash.cells[..], size, base, log)
      && used == End(log)
    }

    lemma ValidLog()
      requires Valid()
      ensures AllWf(log) && base <= size
    {}

    constructor (flash: Flash, size: nat)
      requires flash.pageSize > 0 && size > 0 && size % 4 == 0 && OnPage(size, flash.pageSize) && flash.cells.Length == 2 * size
      ensures this.flash == flash && this.size == size && Geometry()
    {
      this.flash := flash;
      this.size := size;
      base, used, log := 0, 0, [];
    }

    /** Erases the area at `addr`, first page first. */
    method EraseArea(addr: nat)
      requires Geometry() && OnPage(addr, flash.pageSize) && addr <= size
      modifies flash.cells, flash`history
      ensures flash.cells[..] == Wiped(old(flash.cells[..]), addr, addr + size)
      ensures ClearingSince(old(flash.history), flash.history, old(flash.cells[..]), addr, size)
    {
      hide Clearing, Wiped;
      var address := addr;
      ghost var img := flash.cells[..];
      OnPageSum(addr, size, flash.pageSize);
      WipedNothing(img, addr);
      while address < addr + size
        invariant addr <= address <= addr + size && OnPage(address, flash.pageSize)
        invariant flash.cells[..] == Wiped(img, addr, address)
        invariant ClearingSince(old(flash.history), flash.history, img, addr, size)
      {
        ErasePageStep(img, addr, size, address, flash.pageSize);
        assert address < flash.cells.Length && PageStart(address, flash.pageSize) == address;
        flash.ErasePage(address);
        address := address + flash.pageSize;
      }
    }

    /** Formats the area at `addr` and stamps it with `word`. */
    method InitSettings(addr: nat, word: seq<byte>)
      requires Geometry() && (addr == 0 || addr == size) && |word| == FLAG_SIZE
      modifies flash.cells, flash`history
      ensures Formatted(flash.cells[..], old(flash.cells[..]), addr, size, word)
      ensures word != IN_USE ==> ClearingSince(old(flash.history), flash.history, old(flash.cells[..]), addr, size)
    {
      hide Formatted, ClearingSince, Wiped, Program, WrittenSince, Stages;
      ghost var img, h0 := flash.cells[..], flash.history;
      EraseArea(addr);
      ghost var wiped, h1 := flash.cells[..], flash.history;
      flash.Write(addr, word);
      StampArea(img, addr, size, word);
      if word != IN_USE { StampHistory(h0, h1, flash.history, img, wiped, addr, size, word); }
    }

    method ReadBlock(address: nat) returns (block: Block)
      ensures address + HEADER <= flash.cells.Length ==> block == Parse(flash.cells[address..address + HEADER])
      ensures address + 2 < flash.cells.Length ==> block.flag == flash.cells[address + 2]
    {
      var h := flash.Read(address, HEADER);
      if address + HEADER <= flash.cells.Length {
        assert h == flash.cells[address..address + HEADER];
      }
      block := Parse(h);
    }

    /** Reads the header of record `i` of the log `l` in the area at `b`: one step of a scan. */
    method Scan(at: nat, ghost b: nat, ghost l: Log, ghost i: nat) returns (block: Block)
      requires RecordsAt(flash.cells[..], b, l) && AllWf(l) && i < |l| && at == Position(b, l, i)
      ensures Describes(block, l[i])
      ensures at + HEADER + |l[i].body| <= flash.cells.Length && AlignLength(block.len) == |l[i].body|
      ensures Position(b, l, i + 1) == at + HEADER + AlignLength(block.len)
      ensures Position(b, l, i + 1) < Position(b, l, |l|) <==> i + 1 < |l|
    {
      BlockAt(flash.cells[..], b, l, i);
      assert l[i].Wf();
      block := ReadBlock(at);
    }

    /** One step of a lookup: record `i`, with the running index and the payload found so far. */
    method FindNext(at: nat, key: u16, index: int, idx: nat, status: Status, address: nat, length: u16, ghost i: nat)
      returns (next: nat, idx': nat, status': Status, address': nat, length': u16)
      requires Valid() && i < |log| && at == Position(base, log, i)
      requires idx == |Visible(log, i, key)| && Located(log, base, Visible(log, i, key), index, status, address, length)
      ensures next == Position(base, log, i + 1) && (next < base + used <==> i + 1 < |log|)
      ensures idx' == |Visible(log, i + 1, key)|
      ensures Located(log, base, Visible(log, i + 1, key), index, status', address', length')
    {
      idx', status', address', length' := idx, status, address, length;
      var block := Scan(at, base, log, i);
      next := at + AlignLength(block.len) + HEADER;
      if block.key == key {
        if block.Index0() {
          idx' := 0;
          status' := NotFound;
        }
        if block.Live() {
          if idx' == index {
            address', length' := at + HEADER, block.len;
            status' := Success;
          }
          idx' := idx' + 1;
        }
      }
    }

    /** Finds the payload of element `index` of `key`. */
    method GetRelativeAddress(key: u16, index: int) returns (status: Status, address: nat, length: u16)
      requires Valid()
      ensures Located(log, base, Visible(log, |log|, key), index, status, address, length)
    {
      status, length := NotFound, 0;
      address := 0;
      var at := base + FLAG_SIZE;
      var idx: nat := 0;
      ghost var i := 0;
      ScanStart(base, log);
      while at < base + used
        invariant i <= |log| && at == Position(base, log, i) && (at < base + used <==> i < |log|)
        invariant idx == |Visible(log, i, key)|
        invariant Located(log, base, Visible(log, i, key), index, status, address, length)
        decreases |log| - i
      {
        at, idx, status, address, length := FindNext(at, key, index, idx, status, address, length, i);
        i := i + 1;
      }
    }

    /** Returns element `index` of `key`, cut to `capacity` octets. */
    method Get(key: u16, index: int, capacity: nat) returns (status: Status, value: seq<byte>)
      requires Valid()
      ensures status == if 0 <= index < |List(log, key)| then Success else NotFound
      ensures status.Success? ==> value == List(log, key)[index][..Min(capacity, |List(log, key)[index]|)]
    {
      var address, length;
      value := [];
      status, address, length := GetRelativeAddress(key, index);
      if status.NotFound? {
        return;
      }
      ghost var j := Visible(log, |log|, key)[index];
      PayloadStored(flash.cells[..], base, log, j);
      value := flash.Read(address, Min(capacity, length));
      assert List(log, key)[index] == log[j].Value();
    }

    /** Clears one flag bit of the block in memory and writes the block back over record `i`. */
    method RaiseFlag(at: nat, block: Block, mask: byte, ghost delete: bool, ghost i: nat) returns (raised: Block)
      requires Valid() && i < |log| && at == Position(base, log, i) && Describes(block, log[i])
      requires mask == if delete then 0xFB else 0xF7
      modifies this`log, flash.cells, flash`history
      ensures Valid() && log == old(log)[i := if delete then DeletedRec(old(log[i])) else PromotedRec(old(log[i]))]
      ensures Describes(raised, log[i])
      ensures forall k :: 0 <= k <= |log| ==> Off(log, k) == Off(old(log), k)
      ensures BootingSince(old(flash.history), flash.history, size, base, log)
    {
      hide Boots, Area, Clears, BootingSince, Program, WrittenSince, Stages;
      ghost var img, h0, l := flash.cells[..], flash.history, log;
      BootsLog(img, size, base, l);
      ghost var r := if delete then DeletedRec(log[i]) else PromotedRec(log[i]);
      RaisingClears(log[i], false, delete, !delete);
      MaskOctets();
      assert log[i].Wf();
      raised := block.(flag := And(block.flag, mask));
      assert raised.Bytes() == r.Header();
      RewriteHeader(flash.cells[..], size, base, log, i, r);
      OffsSame(log, log[i := r]);
      flash.Write(at, raised.Bytes());
      RewriteHistory(img, size, base, l, i, r, h0, flash.history);
      log := log[i := r];
      OctetBits(r.flags);
    }

    /** A delete scan's work on a live record of its key. */
    method Visit(at: nat, block: Block, idx: nat, index: int, ghost i: nat) returns (hit: bool)
      requires Valid() && i < |log| && at == Position(base, log, i) && Describes(block, log[i])
      modifies this`log, flash.cells, flash`history
      ensures Valid() && log == old(log)[i := Visited(old(log[i]), idx, index)]
      ensures forall k :: 0 <= k <= |log| ==> Off(log, k) == Off(old(log), k)
      ensures BootingSince(old(flash.history), flash.history, size, base, log)
      ensures hit <==> index == idx || index == ALL
    {
      var b := block;
      hit := index == idx || index == ALL;
      if hit {
        b := RaiseFlag(at, b, 0xFB, true, i);
      }
      if idx == 1 && index == 0 {
        b := RaiseFlag(at, b, 0xF7, false, i);
      }
    }

    /** One step of a delete scan: record `i`, with the running index before and after it. */
    method DeleteNext(at: nat, key: u16, index: int, idx: nat, status: Status, ghost l: Log, ghost i: nat)
      returns (next: nat, idx': nat, status': Status)
      requires Valid() && i < |log| == |l| && at == Position(base, log, i) && Partly(l, log, i, key, index)
      requires idx == |Visible(l, i, key)| && status == Outcome(index, idx)
      modifies this`log, flash.cells, flash`history
      ensures Valid() && |log| == |l| && Partly(l, log, i + 1, key, index)
      ensures next == Position(base, log, i + 1) && (next < base + used <==> i + 1 < |log|)
      ensures idx' == |Visible(l, i + 1, key)| && status' == Outcome(index, idx')
      ensures BootingSince(old(flash.history), flash.history, size, base, log)
    {
      idx', status' := idx, status;
      var block := Scan(at, base, log, i);
      next := at + AlignLength(block.len) + HEADER;
      PartlyStep(l, log, i, key, index, AfterDelete(l, i, key, index));
      if block.key == key {
        if block.Index0() {
          idx' := 0;
          status' := NotFound;
        }
        if block.Live() {
          var hit := Visit(at, block, idx', index, i);
          if hit {
            status' := Success;
          }
          idx' := idx' + 1;
        }
      }
    }

    /** Marks element `index` of `key` deleted (every element for -1), in every group of the key. */
    method DeleteSetting(key: u16, index: int) returns (status: Status)
      requires Valid()
      modifies this`log, flash.cells, flash`history
      ensures Valid() && log == Delete(old(log), key, index)
      ensures status == Outcome(index, |List(old(log), key)|)
      ensures status in {Success, NotFound} && (status.Success? <==> List(log, key) != List(old(log), key))
      ensures old(flash.history) <= flash.history
      ensures forall k :: |old(flash.history)| <= k < |flash.history| ==>
                DeleteStage(flash.history[k], size, base, old(log), key, index)
    {
      status := NotFound;
      var at := base + FLAG_SIZE;
      var idx: nat := 0;
      ghost var i, l, h0 := 0, log, flash.history;
      ScanStart(base, log);
      while at < base + used
        invariant Valid() && i <= |log| == |l| && at == Position(base, log, i) && (at < base + used <==> i < |log|)
        invariant idx == |Visible(l, i, key)| && status == Outcome(index, idx)
        invariant Partly(l, log, i, key, index) && DeletingSince(h0, flash.history, size, base, l, key, index)
        decreases |l| - i
      {
        ghost var h1 := flash.history;
        at, idx, status := DeleteNext(at, key, index, idx, status, l, i);
        i := i + 1;
        DeletingStep(h0, h1, flash.history, size, base, l, log, i, key, index);
      }
      PartlyDone(l, log, key, index);
      DeleteRefines(l, key, index, key);
      RemoveAtExact(List(l, key), index);
    }

    /** Writes one fragment: its first word, padded with erased octets on both sides, then the rest. */
    method WriteFragment(at: nat, frag: seq<byte>) returns (next: nat)
      modifies flash.cells, flash`history
      ensures next == Next(at, frag) && flash.cells[..] == StoreFragment(old(flash.cells[..]), at, frag)
      ensures ChangedWithin(old(flash.history), flash.history, old(flash.cells[..]), at, at + |frag|)
    {
      hide Program, WrittenSince, Stages, ChangedWithin, HeadWord;
      ghost var img, h0 := flash.cells[..], flash.history;
      var aligned, n := at - at % WORD, HeadCount(at, frag);
      flash.Write(aligned, HeadWord(at, frag));
      ghost var mid, h1 := flash.cells[..], flash.history;
      flash.Write(aligned + WORD, frag[n..]);
      FragmentHistory(img, mid, at, frag, h0, h1, flash.history);
      next := aligned + WORD + |frag| - HeadCount(at, frag);
    }

    /** Writes the fragments one after another. */
    method WriteFragments(addr: nat, frags: seq<seq<byte>>)
      modifies flash.cells, flash`history
      ensures flash.cells[..] == StoreAll(old(flash.cells[..]), addr, frags)
      ensures ChangedWithin(old(flash.history), flash.history, old(flash.cells[..]), addr, Stop(addr, frags))
    {
      var at, i := addr, 0;
      ghost var img, hi := flash.cells[..], Stop(addr, frags);
      while i < |frags|
        invariant i <= |frags| && Within(at, frags[i..], addr, hi)
        invariant StoreAll(flash.cells[..], at, frags[i..]) == StoreAll(img, addr, frags)
        invariant SameOutside(flash.cells[..], img, addr, hi)
        invariant ChangedWithin(old(flash.history), flash.history, img, addr, hi)
      {
        ghost var now, h := flash.cells[..], flash.history;
        StoreAllStep(now, at, frags, i);
        StoreOutside(now, at, frags[i]);
        WithinStep(at, frags, i, addr, hi);
        ghost var here, n := at, |frags[i]|;
        at := WriteFragment(at, frags[i]);
        FragmentsStep(old(flash.history), h, flash.history, img, now, flash.cells[..], here, n, addr, hi);
        i := i + 1;
      }
    }

    /** Writes the unfinished header, the payload, and the finished header at `p`. */
    method WriteRecord(p: nat, first: seq<byte>, second: seq<byte>, frags: seq<seq<byte>>)
      returns (ghost head: Image, ghost payload: Image, ghost h1: seq<Image>, ghost h2: seq<Image>)
      modifies flash.cells, flash`history
      ensures Written(old(flash.cells[..]), head, payload, flash.cells[..], p, first, second, frags, old(flash.history), h1, h2, flash.history)
    {
      hide StoreAll, Stop;
      flash.Write(p, first);
      head, h1 := flash.cells[..], flash.history;
      WriteFragments(p + HEADER, frags);
      payload, h2 := flash.cells[..], flash.history;
      flash.Write(p, second);
    }

    /** Appends one record behind the log. */
    method AppendBlock(block: Block, ghost index0: bool, frags: seq<seq<byte>>)
      requires Valid() && block.flag == (if index0 then 0xF6 else 0xFE) && block.flagHi == 0
      modifies this`used, this`log, flash.cells, flash`history
      ensures Contained(frags) && |Concat(frags)| == block.len && End(old(log)) + HEADER + AlignLength(block.len) <= size ==>
                var r := VectorRec(block.key, index0, frags, block.reserved);
                && Valid() && log == old(log) + [r]
                && AppendingSince(old(flash.history), flash.history, size, base, old(log), r)
    {
      var p, done := base + used, block.(flag := And(block.flag, 0xFD));
      ghost var img, h0, b, l := flash.cells[..], flash.history, base, log;
      assert Boots(img, size, b, l) && p == b + End(l);
      ghost var head, payload, h1, h2 := WriteRecord(p, block.Bytes(), done.Bytes(), frags);
      ghost var last, h := flash.cells[..], flash.history;
      assert Written(img, head, payload, last, p, block.Bytes(), done.Bytes(), frags, h0, h1, h2, h);
      if Contained(frags) && |Concat(frags)| == block.len && End(l) + HEADER + AlignLength(block.len) <= size {
        BlockWritten(img, head, payload, last, size, b, l, p, block, done, index0, frags, h0, h1, h2, h);
        log := l + [VectorRec(block.key, index0, frags, block.reserved)];
      }
      used := used + HEADER + AlignLength(block.len);
    }

    /** Copies the source octets [at, to) behind those from `src` on that are already copied. */
    method CopyOctets(at: nat, to: nat, target: nat, ghost img: Image, ghost src: nat, ghost dst: nat, ghost header: seq<byte>, ghost hi: nat)
      requires src <= at <= to <= |img| == flash.cells.Length && dst + |header| + (to - src) <= hi && (to <= dst || hi <= src)
      requires target == dst + |header| + (at - src)
      requires Copying(img, flash.cells[..], src, at, dst, header)
      modifies flash.cells, flash`history
      ensures Copying(img, flash.cells[..], src, to, dst, header)
      ensures ChangedWithin(old(flash.history), flash.history, img, dst, hi)
    {
      hide Copying, ChangedWithin, SameOutside, WrittenSince, Program, Stages;
      ghost var now, h := flash.cells[..], flash.history;
      var buffer := flash.Read(at, to - at);
      assert buffer == now[at..to];
      flash.Write(target, buffer);
      ghost var next := flash.cells[..];
      CopyChunk(img, now, next, buffer, src, at, to, target, dst, header, hi);
      ChunkHistory(img, now, buffer, src, at, target, dst, header, hi, h, flash.history);
    }

    /** One chunk of the copy loop. */
    method CopyNext(start: nat, dst: nat, padded: nat, copied: u16, ghost img: Image, ghost header: seq<byte>) returns (copied': u16)
      requires |header| == HEADER && padded < 0xFFF8 && start + HEADER + padded <= |img| == flash.cells.Length
      requires start + HEADER + padded <= dst || dst + HEADER + padded <= start
      requires HEADER <= copied < padded
      requires Copying(img, flash.cells[..], start + HEADER, start + copied, dst, header)
      modifies flash.cells, flash`history
      ensures copied' == copied + ChunkSize(padded, copied)
      ensures Copying(img, flash.cells[..], start + HEADER, start + copied', dst, header)
      ensures ChangedWithin(old(flash.history), flash.history, img, dst, dst + HEADER + padded)
    {
      hide Copying, ChangedWithin;
      var remaining: u16 := padded - copied + HEADER;
      var amount: u16 := if CHUNK > remaining then remaining else CHUNK;
      copied' := copied + amount;
      CopyOctets(start + copied, start + copied', dst + copied, img, start + HEADER, dst, header, dst + HEADER + padded);
    }

    /** Copies one block to `dst`: the header from memory, then the payload in chunks. */
    method CopyBlock(start: nat, dst: nat, header: seq<byte>, padded: nat)
      requires |header| == HEADER && padded < 0xFFF8 && start + HEADER + padded <= flash.cells.Length
      requires start + HEADER + padded <= dst || dst + HEADER + padded <= start
      modifies flash.cells, flash`history
      ensures var src := start + HEADER;
              Copying(old(flash.cells[..]), flash.cells[..], src, src + CopiedLength(padded), dst, header)
      ensures ChangedWithin(old(flash.history), flash.history, old(flash.cells[..]), dst, dst + HEADER + padded)
    {
      hide ChangedWithin, WrittenSince;
      ghost var img, h := flash.cells[..], flash.history;
      flash.Write(dst, header);
      ghost var h1 := flash.history;
      WrittenWithin(h, h1, img, dst, header, dst, dst + HEADER + padded);
      CopyingStart(img, start + HEADER, dst, header, dst + HEADER + padded);
      CopyPayload(start, dst, padded, img, header);
      ChangedTrans(h, h1, flash.history, img, dst, dst + HEADER + padded);
    }

    /** The copy loop: the header counts as copied already. */
    method CopyPayload(start: nat, dst: nat, padded: nat, ghost img: Image, ghost header: seq<byte>)
      requires |header| == HEADER && padded < 0xFFF8 && start + HEADER + padded <= |img| == flash.cells.Length
      requires start + HEADER + padded <= dst || dst + HEADER + padded <= start
      requires Copying(img, flash.cells[..], start + HEADER, start + HEADER, dst, header)
      modifies flash.cells, flash`history
      ensures var src := start + HEADER; Copying(img, flash.cells[..], src, src + CopiedLength(padded), dst, header)
      ensures ChangedWithin(old(flash.history), flash.history, img, dst, dst + HEADER + padded)
    {
      var copied: u16 := HEADER;
      while copied < padded
        invariant copied <= padded + HEADER && StopsAt(padded, copied) == StopsAt(padded, HEADER)
        invariant Copying(img, flash.cells[..], start + HEADER, start + copied, dst, header)
        invariant ChangedWithin(old(flash.history), flash.history, img, dst, dst + HEADER + padded)
      {
        ghost var h := flash.history;
        copied := CopyNext(start, dst, padded, copied, img, header);
        ChangedTrans(old(flash.history), h, flash.history, img, dst, dst + HEADER + padded);
      }
      CopyLoopStops(padded);
    }

    /** Is there a live index-0 block of `key` among the blocks from `address` on? */
    method SupersededLater(address: nat, end: nat, key: u16, ghost b: nat, ghost l: Log, ghost i: nat) returns (found: bool)
      requires RecordsAt(flash.cells[..], b, l) && AllWf(l) && i < |l| && key == l[i].key
      requires address == Position(b, l, i + 1) && end == Position(b, l, |l|) && (address < end <==> i + 1 < |l|)
      ensures found <==> exists m :: 0 <= m < |l| && Supersedes(l, i, m)
    {
      var at := address;
      ghost var m := i + 1;
      while at < end
        invariant i < m <= |l| && at == Position(b, l, m) && (at < end <==> m < |l|)
        invariant forall k :: 0 <= k < m ==> !Supersedes(l, i, k)
        decreases |l| - m
      {
        var block := Scan(at, b, l, m);
        if block.Live() && block.Index0() && block.key == key {
          assert Supersedes(l, i, m);
          return true;
        }
        at := at + AlignLength(block.len) + HEADER;
        m := m + 1;
      }
      return false;
    }

    /** Copies one surviving record behind those already in the new area. */
    method CopyRecord(swap: nat, dst: nat, header: seq<byte>, padded: nat, ghost b: nat, ghost nb: nat, ghost l: Log, ghost i: nat, ghost c: Log, ghost d: Log)
      requires flash.cells.Length == 2 * size && i < |l| && Swapping(flash.cells[..], size, b, l, nb, c) && d == c + [Copied(l[i])]
      requires header == l[i].Header() && padded == |l[i].body| < 0xFFF8 && l[i].Live()
      requires dst == nb + End(c) && swap == Position(b, l, i) && End(c) + l[i].Size() <= size
      requires swap + HEADER + padded <= 2 * size && (swap + HEADER + padded <= dst || dst + HEADER + padded <= swap)
      modifies flash.cells, flash`history
      ensures Swapping(flash.cells[..], size, b, l, nb, d) && End(d) == End(c) + HEADER + padded
      ensures BootingSince(old(flash.history), flash.history, size, b, l)
    {
      hide Swapping, Copying, ChangedWithin, BootingSince;
      ghost var img, h0 := flash.cells[..], flash.history;
      CopyBlock(swap, dst, header, padded);
      ghost var now, h := flash.cells[..], flash.history;
      ghost var src := swap + HEADER;
      ghost var end := src + CopiedLength(padded);
      ghost var hi := dst + HEADER + padded;
      assert Copying(img, now, src, end, dst, header) && ChangedWithin(h0, h, img, dst, hi);
      CopyFinished(img, now, size, b, l, nb, i, c, d, header, dst, hi, src, end, h0, h);
    }

    /** One record of a swap: copied to the new area if it is live and not superseded. */
    method SwapNext(swap: nat, oldBase: nat, end: nat, ghost l: Log, ghost i: nat) returns (next: nat, stop: bool)
      requires Geometry() && i < |l| && Swapping(flash.cells[..], size, oldBase, l, base, CompactPrefix(l, i))
      requires used == End(CompactPrefix(l, i)) && swap == Position(oldBase, l, i) && end == Position(oldBase, l, |l|)
      modifies this`used, flash.cells, flash`history
      ensures Swapping(flash.cells[..], size, oldBase, l, base, CompactPrefix(l, i + 1))
      ensures used == End(CompactPrefix(l, i + 1))
      ensures next == Position(oldBase, l, i + 1) && (next < end <==> i + 1 < |l|)
      ensures !stop   // the erased-block test can never fire inside the log
      ensures BootingSince(old(flash.history), flash.history, size, oldBase, l)
    {
      ghost var img, h0, nb, c := flash.cells[..], flash.history, base, CompactPrefix(l, i);
      var block := Scan(swap, oldBase, l, i);
      next := swap + HEADER + AlignLength(block.len);
      assert RecordsAt(img, oldBase, l) && AllWf(l);
      hide Area, Boots, RecordsAt, AllWf, Swapping;
      if block.Live() {
        var superseded := SupersededLater(next, end, block.key, oldBase, l, i);
        if !superseded {
          assert Survives(l, i);
          CopyReady(img, size, oldBase, l, nb, i, c);
          CopyRecord(swap, base + used, block.Bytes(), AlignLength(block.len), oldBase, nb, l, i, c, CompactPrefix(l, i + 1));
          used := used + HEADER + AlignLength(block.len);
        }
        stop := false;
      } else {
        assert l[i].Wf();
        stop := block.flag == 0xFF && block.flagHi == 0;
      }
    }

    /** Copies every surviving record of the old area into the freshly formatted one. */
    method SwapRecords(oldBase: nat, end: nat, ghost l: Log)
      requires Geometry() && Swapping(flash.cells[..], size, oldBase, l, base, CompactPrefix(l, 0))
      requires used == FLAG_SIZE && end == Position(oldBase, l, |l|)
      modifies this`used, flash.cells, flash`history
      ensures Swapping(flash.cells[..], size, oldBase, l, base, Compact(l)) && used == End(Compact(l))
      ensures BootingSince(old(flash.history), flash.history, size, oldBase, l)
    {
      var swap := oldBase + FLAG_SIZE;
      ghost var i, h0 := 0, flash.history;
      ScanStart(oldBase, l);
      while swap < end
        invariant i <= |l| && swap == Position(oldBase, l, i) && (swap < end <==> i < |l|)
        invariant Swapping(flash.cells[..], size, oldBase, l, base, CompactPrefix(l, i)) && used == End(CompactPrefix(l, i))
        invariant BootingSince(h0, flash.history, size, oldBase, l)
        decreases |l| - i
      {
        ghost var h := flash.history;
        var stop;
        swap, stop := SwapNext(swap, oldBase, end, l, i);
        if stop {
          break;
        }
        BootingJoin(h0, h, flash.history, size, oldBase, l);
        i := i + 1;
      }
    }

    /** Compacts the log into the other area and returns the room left there. */
    method SwapSettingsBlock() returns (space: nat)
      requires Valid()
      modifies this`base, this`used, this`log, flash.cells, flash`history
      ensures Valid() && log == Compact(old(log)) && base + old(base) == size
      ensures space == size - End(log)
      ensures SwappingSince(old(flash.history), flash.history, size, old(base), old(log))
      ensures old(flash.history) <= flash.history
      ensures forall k :: |old(flash.history)| <= k < |flash.history| ==> SwapStage(flash.history[k], size, old(base), old(log))
    {
      ghost var img, h0, l := flash.cells[..], flash.history, log;
      var oldBase, end := base, base + used;
      base := if oldBase == 0 then size else 0;
      ghost var nb := base;
      InitSettings(base, IN_SWAP);
      SwapStart(img, flash.cells[..], size, oldBase, l, nb);
      ClearingBoots(img, size, oldBase, l, nb, h0, flash.history);
      used := FLAG_SIZE;
      ghost var h1 := flash.history;
      SwapRecords(oldBase, end, l);
      ghost var full, h2 := flash.cells[..], flash.history;
      BootingJoin(h0, h1, h2, size, oldBase, l);
      flash.Write(base, IN_USE);
      ghost var h3 := flash.history;
      flash.Write(oldBase, NOT_USE);
      SwapHistory(full, size, oldBase, l, nb, h0, h2, h3, flash.history);
      log := Compact(l);
      space := size - used;
    }

    method TotalLength(frags: seq<seq<byte>>) returns (total: u16)
      ensures total == |Concat(frags)| % 0x1_0000
    {
      total := 0;
      for i := 0 to |frags|
        invariant total == SumLengths(frags, i) % 0x1_0000
      {
        total := (total + |frags[i]|) % 0x1_0000;
      }
      SumIsConcat(frags, 0);
      assert frags[0..] == frags;
    }

    /**
     * Appends a record made of the fragments, compacting first if there is no room; refused if there is none even then.
     * Lengths are added up in 16 bits.
     */
    method AddSettingVector(key: u16, index0: bool, frags: seq<seq<byte>>, reserved: u16) returns (status: Status)
      requires Valid()
      modifies this`base, this`used, this`log, flash.cells, flash`history
      ensures var need := HEADER + AlignLength(|Concat(frags)| % 0x1_0000);
              status == if End(old(log)) + need < size || End(Compact(old(log))) + need <= size then Success else NoBuffer
      ensures status.NoBuffer? ==>
                Valid() && log == Compact(old(log)) && SwappingSince(old(flash.history), flash.history, size, old(base), old(log))
      ensures status.Success? && Contained(frags) ==>
                var r := VectorRec(key, index0, frags, reserved);
                var full := End(old(log)) + r.Size() >= size;
                && Valid() && log == Room(old(log), full) + [r]
                && AddingSince(old(flash.history), flash.history, size, old(base), old(log), r, full)
    {
      hide AddingSince, SwappingSince, Compact, AppendingSince, Boots, Concat, VectorRec;
      var total := TotalLength(frags);
      var block := Block(key, if index0 then 0xF6 else 0xFE, 0, total, reserved);
      if used + HEADER + AlignLength(total) >= size {
        status := AddCompacted(block, index0, frags);
      } else {
        ghost var h0, b, l := flash.history, base, log;
        BootsLog(flash.cells[..], size, b, l);
        AppendBlock(block, index0, frags);
        if Contained(frags) {
          PlainHistory(h0, flash.history, size, b, l, VectorRec(key, index0, frags, reserved));
        }
        status := Success;
      }
    }

    /** The add on a full area. */
    method AddCompacted(block: Block, ghost index0: bool, frags: seq<seq<byte>>) returns (status: Status)
      requires Valid() && block.flag == (if index0 then 0xF6 else 0xFE) && block.flagHi == 0
      modifies this`base, this`used, this`log, flash.cells, flash`history
      ensures status == if End(Compact(old(log))) + HEADER + AlignLength(block.len) <= size then Success else NoBuffer
      ensures status.NoBuffer? ==>
                Valid() && log == Compact(old(log)) && SwappingSince(old(flash.history), flash.history, size, old(base), old(log))
      ensures status.Success? && Contained(frags) && |Concat(frags)| == block.len ==>
                var r := VectorRec(block.key, index0, frags, block.reserved);
                && Valid() && log == Compact(old(log)) + [r]
                && AddingSince(old(flash.history), flash.history, size, old(base), old(log), r, true)
    {
      ghost var h0, b, l := flash.history, base, log;
      var space := SwapSettingsBlock();
      if space < HEADER + AlignLength(block.len) {
        return NoBuffer;
      }
      ghost var h1 := flash.history;
      AppendBlock(block, index0, frags);
      if Contained(frags) && |Concat(frags)| == block.len {
        AddHistory(h0, h1, flash.history, size, b, size - b, l, VectorRec(block.key, index0, frags, block.reserved));
      }
      status := Success;
    }

    /** Replaces whatever `key` holds by one value. */
    method SetSetting(key: u16, value: seq<byte>, reserved: u16) returns (status: Status)
      requires Valid() && |value| < 0x1_0000
      modifies this`base, this`used, this`log, flash.cells, flash`history
      ensures var need := HEADER + AlignLength(|value|);
              status == if End(old(log)) + need < size || End(Compact(old(log))) + need <= size then Success else NoBuffer
      ensures status.NoBuffer? ==>
                && Valid() && log == Apply(old(log), Refused(key)) && old(flash.history) <= flash.history
                && forall k :: |old(flash.history)| <= k < |flash.history| ==> SwapStage(flash.history[k], size, old(base), old(log))
      ensures status.Success? && |value| <= 0xFFF4 ==>
                var r := NewRec(key, true, value, reserved);
                var full := End(old(log)) + r.Size() >= size;
                && Valid() && log == Apply(old(log), Set(key, value, reserved, full))
                && old(flash.history) <= flash.history && old(base) <= size
                && (forall k :: |old(flash.history)| <= k < |flash.history| ==>
                      AddStage(flash.history[k], size, old(base), old(log), r, full))
                && List(log, key) == [value]
                && forall k: u16 :: k != key && (full ==> Shape(old(log), k)) ==> Same(full, List(log, k), List(old(log), k))
    {
      hide Valid, Shape, Same, AddStage, SwapStage, Compact, Visible, Reaches, Concat;
      SingleFragment(value);
      if |value| <= MAX_LEN { VectorRecReaching(key, true, [value], reserved); }
      ghost var l, full := log, End(log) + HEADER + AlignLength(|value|) >= size;
      ValidLog();
      if |value| <= MAX_LEN { SetLists(l, key, value, reserved, full); }
      status := AddSettingVector(key, true, [value], reserved);
    }

    /** Adds what the writer makes of the fragments behind the values `key` already holds. */
    method AddVector(key: u16, frags: seq<seq<byte>>, reserved: u16) returns (status: Status)
      requires Valid()
      modifies this`base, this`used, this`log, flash.cells, flash`history
      ensures var need := HEADER + AlignLength(|Concat(frags)| % 0x1_0000);
              status == if End(old(log)) + need < size || End(Compact(old(log))) + need <= size then Success else NoBuffer
      ensures status.NoBuffer? ==>
                && Valid() && log == Apply(old(log), Refused(key)) && old(flash.history) <= flash.history
                && forall k :: |old(flash.history)| <= k < |flash.history| ==> SwapStage(flash.history[k], size, old(base), old(log))
      ensures status.Success? && Contained(frags) ==>
                var r := VectorRec(key, Visible(old(log), |old(log)|, key) == [], frags, reserved);
                var full := End(old(log)) + r.Size() >= size;
                && Valid() && log == Room(old(log), full) + [r]
                && (Reaches(0, frags) ==> log == Apply(old(log), Add(key, Concat(frags), reserved, full)))
                && old(flash.history) <= flash.history && old(base) <= size
                && (forall k :: |old(flash.history)| <= k < |flash.history| ==>
                      AddStage(flash.history[k], size, old(base), old(log), r, full))
    {
      hide AddStage, SwapStage, Compact, Visible, Reaches, Concat, Boots;
      ValidLog();
      var found, value := Get(key, 0, 0);
      if Reaches(0, frags) && |Concat(frags)| <= MAX_LEN { VectorRecReaching(key, found.NotFound?, frags, reserved); }
      status := AddSettingVector(key, found.NotFound?, frags, reserved);
    }

    /** Adds one value behind the values `key` already holds. */
    method AddSetting(key: u16, value: seq<byte>, reserved: u16) returns (status: Status)
      requires Valid() && |value| < 0x1_0000
      modifies this`base, this`used, this`log, flash.cells, flash`history
      ensures var need := HEADER + AlignLength(|value|);
              status == if End(old(log)) + need < size || End(Compact(old(log))) + need <= size then Success else NoBuffer
      ensures status.NoBuffer? ==>
                && Valid() && log == Apply(old(log), Refused(key)) && old(flash.history) <= flash.history
                && forall k :: |old(flash.history)| <= k < |flash.history| ==> SwapStage(flash.history[k], size, old(base), old(log))
      ensures status.Success? && |value| <= 0xFFF4 ==>
                var r := NewRec(key, Visible(old(log), |old(log)|, key) == [], value, reserved);
                var full := End(old(log)) + r.Size() >= size;
                && Valid() && log == Apply(old(log), Add(key, value, reserved, full))
                && old(flash.history) <= flash.history && old(base) <= size
                && (forall k :: |old(flash.history)| <= k < |flash.history| ==>
                      AddStage(flash.history[k], size, old(base), old(log), r, full))
                && forall k: u16 :: (full ==> Shape(old(log), k)) ==>
                     if k == key then SameAdded(full, List(log, k), List(old(log), k), value) else Same(full, List(log, k), List(old(log), k))
    {
      hide Valid, Shape, Same, SameAdded, AddStage, SwapStage, Compact, Visible, Reaches, Concat;
      SingleFragment(value);
      if |value| <= MAX_LEN { VectorRecReaching(key, Visible(log, |log|, key) == [], [value], reserved); }
      ghost var l, full := log, End(log) + HEADER + AlignLength(|value|) >= size;
      ValidLog();
      if |value| <= MAX_LEN { AddLists(l, key, value, reserved, full); }
      status := AddVector(key, [value], reserved);
    }

    /**
     * Start-up on any image: selects the first area in use, formatting the second one if neither is, and finds the end
     * of its chain of headers. On an image that boots this is its log.
     */
    method Init(ghost b: nat, ghost l: Log)
      requires Geometry()
      modifies this`base, this`used, this`log, flash.cells, flash`history
      ensures var img := old(flash.cells[..]);
              && base == (if At(img, 0, IN_USE) then 0 else size)
              && (At(img, 0, IN_USE) || At(img, size, IN_USE) ==> flash.cells[..] == img && flash.history == old(flash.history))
              && (!At(img, 0, IN_USE) && !At(img, size, IN_USE) ==> Valid() && log == [])
      ensures Reached(used, Walk(flash.cells[..], base, size, FLAG_SIZE), size)
      ensures Boots(old(flash.cells[..]), size, b, l) ==> Valid() && base == b && log == l
    {
      hide Boots, Walk, Reached, Formatted, AlignLength, LengthAt, Area, Off, End, AllWf, Fill;
      ghost var img := flash.cells[..];
      base := 0;
      var index := 0;
      while index < 2
        invariant index <= 2 && base == (if index == 2 then size else 0)
        invariant flash.cells[..] == img && flash.history == old(flash.history)
        invariant index > 0 ==> !At(img, 0, IN_USE)
        invariant index > 1 ==> !At(img, size, IN_USE)
      {
        base := base + size * index;
        var word := flash.Read(base, FLAG_SIZE);
        assert word == img[base..base + FLAG_SIZE];
        if word == IN_USE {
          break;
        }
        index := index + 1;
      }
      if index == 2 {
        InitSettings(base, IN_USE);
        FreshArea(img, flash.cells[..], size, base);
      }
      log := if index == 2 then [] else l;
      FindEnd();
      if Boots(img, size, b, l) { BootsSelects(img, size, b, l); }
      if Boots(flash.cells[..], size, base, log) { CursorFound(flash.cells[..], size, base, log, used); }
    }

    /** Walks the chain of begun headers from the start of the area to find its used size. */
    method FindEnd()
      requires Geometry() && (base == 0 || base == size)
      modifies this`used
      ensures Reached(used, Walk(flash.cells[..], base, size, FLAG_SIZE), size)
    {
      hide Walk, AlignLength, LengthAt;
      used := FLAG_SIZE;
      ghost var img := flash.cells[..];
      while used < size
        invariant used % 4 == 0 && Reached(Walk(img, base, size, used), Walk(img, base, size, FLAG_SIZE), size)
        decreases size - used
      {
        CursorRoom(used, size);
        var block := HeaderAtCursor(base + used);
        if !block.Begun() {
          break;
        }
        assert flash.cells[base + used + 2] == img[base + used + 2];
        WalkOnce(img, base, size, used, block.len);
        used := used + AlignLength(block.len) + HEADER;
      }
      WalkEnds(img, base, size, used);
    }

    /** Reads the header at the used cursor, as far as it lies on the device. */
    method HeaderAtCursor(at: nat) returns (block: Block)
      requires at + 4 <= flash.cells.Length
      ensures block.Begun() <==> flash.cells[at + 2] % 2 == 0
      ensures at + HEADER <= flash.cells.Length ==> block.len == LengthAt(flash.cells[..], at)
    {
      block := ReadBlock(at);
    }

    /** Back to the factory state. */
    method Wipe()
      requires Valid()
      modifies this`base, this`used, this`log, flash.cells, flash`history
      ensures Valid() && base == old(base) && log == []
    {
      ghost var img := flash.cells[..];
      InitSettings(base, IN_USE);
      FreshArea(img, flash.cells[..], size, base);
      Init(base, []);
    }
  }
}
