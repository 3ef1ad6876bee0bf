/** The flash device under the settings store. */
module FlashDevice {
  import opened Bytes
  import opened SettingsLog
  import opened FlashImage

  class Flash {
    const cells: array<byte>
    const pageSize: nat
    /** The image after each written word and each page erase so far: the states a power cut can leave behind. */
    ghost var history: seq<Image>

    constructor (contents: seq<byte>, pageSize: nat)
      requires pageSize > 0
      ensures cells[..] == contents && this.pageSize == pageSize && history == [] && fresh(cells)
    {
      cells := new byte[|contents|](i requires 0 <= i < |contents| => contents[i]);
      this.pageSize := pageSize;
      history := [];
    }

    /** Reads past the end of the device return nothing definite. */
    method Read(addr: nat, n: nat) returns (data: seq<byte>)
      ensures |data| == n
      ensures forall i :: 0 <= i < n && addr + i < cells.Length ==> data[i] == cells[addr + i]
    {
      data := [];
      while |data| < n
        invariant |data| <= n
        invariant forall i :: 0 <= i < |data| && addr + i < cells.Length ==> data[i] == cells[addr + i]
      {
        data := data + [if addr + |data| < cells.Length then cells[addr + |data|] else 0];
      }
    }

    /** Writes one octet; `last` marks the last one that lands. */
    method WriteOctet(addr: nat, data: seq<byte>, index: nat, last: bool, ghost img: Image)
      requires index < |data| && addr + index < cells.Length && cells[..] == Program(img, addr, data[..index])
      modifies cells, this`history
      ensures cells[..] == Program(img, addr, data[..index + 1])
      ensures history == old(history) + if last || (addr + index + 1) % 4 == 0 then [cells[..]] else []
    {
      cells[addr + index] := And(cells[addr + index], data[index]);
      assert cells[..] == Program(img, addr, data[..index + 1]);
      if (addr + index + 1) % 4 == 0 || last {
        history := history + [cells[..]];
      }
    }

    /** Clears in each addressed cell the bits that are clear in the data. */
    method Write(addr: nat, data: seq<byte>)
      modifies cells, this`history
      ensures cells[..] == Program(old(cells[..]), addr, data)
      ensures history == old(history) + Stages(old(cells[..]), addr, data)
      ensures WrittenSince(old(history), history, old(cells[..]), addr, data)
      ensures forall n :: 0 < n <= |data| && addr + n <= cells.Length && ((addr + n) % 4 == 0 || n == |data|) ==>
                Recorded(old(history), history, old(cells[..]), addr, data, n)
    {
      hide Program, IsStage;
      ghost var img, d := cells[..], Landed(cells[..], addr, data);
      StagesSince(history, img, addr, data);
      LandedOnly(img, addr, data);
      ProgramNothing(img, addr);
      assert d == data[..|d|];
      var index := 0;
      while index < |data| && addr + index < cells.Length
        invariant 0 <= index <= |d| && (index < |d| <==> index < |data| && addr + index < cells.Length)
        invariant cells[..] == Program(img, addr, data[..index])
        invariant history == old(history) + StagesTo(img, addr, d, index)
      {
        WriteOctet(addr, data, index, index + 1 == |data| || addr + index + 1 == cells.Length, img);
        index := index + 1;
        assert d[..index] == data[..index];
      }
      StagesComplete(old(history), history, img, addr, data);
    }

    /** Sets every bit of the page that holds `addr`; a page erase is not cut off half-way. */
    method ErasePage(addr: nat)
      requires pageSize > 0
      modifies cells, this`history
      ensures addr >= cells.Length ==> cells[..] == old(cells[..]) && history == old(history)
      ensures addr < cells.Length ==>
                var page := PageStart(addr, pageSize);
                cells[..] == Wiped(old(cells[..]), page, page + pageSize) && history == old(history) + [cells[..]]
    {
      if addr >= cells.Length {
        return;
      }
      var page, offset := PageStart(addr, pageSize), 0;
      while offset < pageSize && page + offset < cells.Length
        invariant 0 <= offset <= pageSize && (offset == 0 || page + offset <= cells.Length)
        invariant forall i :: 0 <= i < cells.Length ==> cells[i] == if page <= i < page + offset then 0xFF else old(cells[i])
        invariant history == old(history)
      {
        cells[page + offset] := 0xFF;
        offset := offset + 1;
      }
      history := history + [cells[..]];
    }
  }
}
