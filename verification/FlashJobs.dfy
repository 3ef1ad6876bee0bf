/** The self-rescheduling check and write jobs on the external flash. */
module FlashJobs {
  import opened Crc32

  const PAGE_SIZE := 0x100
  const RX_BUFFER := 128    // octets of the read buffer

  datatype Status = Success | Busy | Fail | InvalidArgs | Refused(code: nat)

  function Min(a: nat, b: nat): nat { if a < b then a else b }

  /* ---- check ---- */

  class CheckJob {
    const chip: seq<octet>       // what the flash holds
    var crc: word                // static: shared by all check jobs, one after another
    var startAddress: nat
    var checklen: nat
    var checksum: word
    var readLimit: nat
    const upstreamCallback: bool
    var scheduled: bool
    var upstream: seq<Status>
    ghost var pending: seq<octet>   // what has been read since the last verdict

    constructor (chip: seq<octet>, upstreamCallback: bool)
      ensures this.chip == chip && this.upstreamCallback == upstreamCallback
      ensures Valid() && pending == [] && !scheduled && upstream == []
    {
      this.chip, this.upstreamCallback := chip, upstreamCallback;
      crc, startAddress, checklen, checksum, readLimit, scheduled, upstream := INITIAL, 0, 0, 0, RX_BUFFER, false, [];
      pending := [];
    }

    /** The range lies on the chip, the read limit fits the read buffer, and the accumulator stands behind what is pending. */
    ghost predicate Valid()
      reads this
    {
      startAddress + checklen <= |chip| && 0 < readLimit <= RX_BUFFER && crc == Update(INITIAL, pending)
    }

    /** What will have been read since the last verdict when the range is done. */
    ghost function Target(): seq<octet>
      requires Valid()
      reads this
    {
      pending + chip[startAddress..startAddress + checklen]
    }

    /** The next job: whatever the accumulator holds stays there. */
    method Start(start: nat, length: nat, sum: word, limit: nat)
      requires Valid() && start + length <= |chip| && 0 < limit <= RX_BUFFER
      modifies this`startAddress, this`checklen, this`checksum, this`readLimit, this`scheduled
      ensures Valid() && startAddress == start && checklen == length && checksum == sum && readLimit == limit && scheduled
    {
      startAddress, checklen, checksum, readLimit, scheduled := start, length, sum, limit, true;
    }

    /** Reads the next stretch into the accumulator; a refused read leaves everything as it is. */
    method ReadAndReschedule(count: nat, readStatus: Status, scheduleStatus: Status) returns (status: Status)
      requires Valid() && 0 < count <= checklen && count <= RX_BUFFER
      modifies this`crc, this`startAddress, this`checklen, this`scheduled, this`pending
      ensures Valid() && status == (if readStatus != Success then readStatus else scheduleStatus)
      ensures readStatus == Success ==>
                && Target() == old(Target()) && checklen == old(checklen) - count && startAddress == old(startAddress) + count
                && pending == old(pending) + chip[old(startAddress)..startAddress] && scheduled == (scheduleStatus == Success)
      ensures readStatus != Success ==> pending == old(pending) && checklen == old(checklen) && scheduled == old(scheduled)
    {
      hide Update;
      status := readStatus;
      if status == Success {
        var rxBuf := chip[startAddress..startAddress + count];
        UpdateSplit(INITIAL, pending, rxBuf);
        assert rxBuf + chip[startAddress + count..startAddress + checklen] == chip[startAddress..startAddress + checklen];
        crc := Stream(rxBuf, crc);
        pending := pending + rxBuf;
        startAddress := startAddress + count;
        checklen := checklen - count;
        status := scheduleStatus;
        scheduled := scheduleStatus == Success;
      }
    }

    /** One call of the job's helper. */
    method Helper(readStatus: Status, scheduleStatus: Status)
      requires Valid()
      modifies this`crc, this`startAddress, this`checklen, this`scheduled, this`upstream, this`pending
      ensures Valid()
      ensures old(checklen) > 0x100 ==>
                !scheduled && pending == old(pending) && upstream == old(upstream) + (if upstreamCallback then [InvalidArgs] else [])
      ensures old(checklen) == 0 ==>
                !scheduled && crc == INITIAL && pending == [] && checklen == 0 && upstream == old(upstream) + (if upstreamCallback then [if Crc(old(pending)) == checksum then Success else Fail] else [])
      ensures 0 < old(checklen) <= 0x100 && readStatus == Success ==>
                && startAddress == old(startAddress) + Min(old(checklen), readLimit)
                && checklen == old(checklen) - Min(old(checklen), readLimit)
                && pending == old(pending) + chip[old(startAddress)..startAddress] && Target() == old(Target())
                && (scheduleStatus == Success ==> scheduled && upstream == old(upstream))
                && (scheduleStatus.Refused? ==> !scheduled && upstream == old(upstream) + (if upstreamCallback then [scheduleStatus] else []))
      ensures 0 < old(checklen) <= 0x100 && readStatus.Refused? ==>
                !scheduled && pending == old(pending) && checklen == old(checklen) && upstream == old(upstream) + (if upstreamCallback then [readStatus] else [])
    {
      hide Update, Complement;
      UpdateNothing(INITIAL);
      scheduled := false;
      var status := Success;
      if checklen > PAGE_SIZE {
        status := InvalidArgs;
      } else if checklen > 0 {
        status := ReadAndReschedule(Min(checklen, readLimit), readStatus, scheduleStatus);
        if status == Success {
          status := Busy;
        }
      } else {
        status := if Complement(crc) == checksum then Success else Fail;
        crc := INITIAL;
        pending := [];
      }
      if status != Busy {
        if upstreamCallback {
          upstream := upstream + [status];
        }
      }
    }

    /**
     * A whole job of at most one page without refusals. Its verdict is about everything read since the last verdict:
     * about the range alone exactly if the job before ended in one.
     */
    method RunToCompletion()
      requires Valid() && scheduled && checklen <= 0x100
      modifies this`crc, this`startAddress, this`checklen, this`scheduled, this`upstream, this`pending
      ensures Valid() && !scheduled && crc == INITIAL && pending == []
      ensures var all := old(pending + chip[startAddress..startAddress + checklen]);
              upstream == old(upstream) + (if upstreamCallback then [if Crc(all) == checksum then Success else Fail] else [])
    {
      ghost var target := Target();
      while scheduled
        invariant Valid() && checklen <= PAGE_SIZE
        invariant scheduled ==> Target() == target && upstream == old(upstream)
        invariant !scheduled ==>
                    && crc == INITIAL && pending == []
                    && upstream == old(upstream) + (if upstreamCallback then [if Crc(target) == checksum then Success else Fail] else [])
        decreases checklen, scheduled
      {
        assert checklen == 0 ==> Target() == pending;
        Helper(Success, Success);
      }
    }
  }

  /** The octets left over from a broken-off job do no harm exactly if they lead the accumulator back to its start. */
  lemma StaleAccumulator(pending: seq<octet>, data: seq<octet>)
    ensures Crc(pending + data) == Crc(data) <==> Update(INITIAL, pending) == INITIAL
  {
    UpdateSplit(INITIAL, pending, data);
    var crc := Update(INITIAL, pending);
    if Complement(Update(crc, data)) == Crc(data) {
      assert Update(crc, data) == Update(INITIAL, data) by {
        ComplementInjective(Update(crc, data), Update(INITIAL, data));
      }
      UpdateInjective(crc, INITIAL, data);
    }
  }

  /** One zero octet does not. */
  lemma OneZeroOctet(data: seq<octet>)
    ensures Crc([0] + data) != Crc(data)
  {
    StaleAccumulator([0], data);
    var d: seq<octet> := [0];
    assert d[..0] == [];
    NibbleIsFour(INITIAL, 0);
    NibbleIsFour(INITIAL, 4);
    assert Steps(INITIAL, 8) == NibbleStep(NibbleStep(INITIAL));
  }

  /** A job refused after its first read, and the next job on the same range with its true checksum: it reports a failure. */
  method BrokenOff() returns (verdicts: seq<Status>)
    ensures verdicts == [Refused(1), Fail]
  {
    hide Crc, Update, Fold;
    var zeros: seq<octet> := [0, 0];
    var sum := Hash(zeros);
    var job := new CheckJob(zeros, true);
    job.Start(0, 2, sum, 1);
    job.Helper(Success, Refused(1));
    assert job.pending == [0];
    job.Start(0, 2, sum, 1);
    assert job.pending + job.chip[0..2] == [0] + zeros;
    job.RunToCompletion();
    OneZeroOctet(zeros);
    verdicts := job.upstream;
  }

  /* ---- write ---- */

  /** A page-program instruction. */
  datatype Program = Program(address: nat, data: seq<octet>) {
    /** Not empty, within the limit, and inside one page. */
    predicate Fits(limit: nat, page: nat)
      requires page > 0
    {
      0 < |data| <= limit && address % page + |data| <= page
    }

    /** At the limit, or up to the end of its page. */
    predicate Full(limit: nat, page: nat)
      requires page > 0
    {
      |data| == limit || (address + |data|) % page == 0
    }
  }

  /** Octets of the next instruction ahead of the cast to 8 bits. */
  function Chunk(address: nat, length: nat, limit: nat, page: nat): nat
    requires page > 0
  {
    Min(Min(length, limit), page - address % page)
  }

  /** And behind it. */
  function Octets(address: nat, length: nat, limit: nat, page: nat): (n: nat)
    requires page > 0
    ensures n < 0x100 && n <= Chunk(address, length, limit, page)
  {
    Chunk(address, length, limit, page) % 0x100
  }

  /** The job comes to an instruction of no octets at all with payload left to write. */
  predicate Sticks(address: nat, length: nat, limit: nat, page: nat)
    requires page > 0
    decreases length
  {
    length > 0 &&
    var n := Octets(address, length, limit, page);
    n == 0 || Sticks(address + n, length - n, limit, page)
  }

  /** What can be said before the job: a limit and a page of 256 octets or more, and as much payload left in some page. */
  predicate Oversized(address: nat, length: nat, limit: nat, page: nat)
    requires page > 0
  {
    var left := page - address % page;
    limit >= 0x100 && page >= 0x100 && length >= if left >= 0x100 then 0x100 else left + 0x100
  }

  lemma PageStep(address: nat, n: nat, page: nat)
    requires page > 0 && n <= page - address % page
    ensures (address + n) % page == if n == page - address % page then 0 else address % page + n
  {
    var q, r := address / page, address % page;
    if n == page - r {
      assert address + n == page * (q + 1);
      Remainder(address + n, q + 1, 0, page);
    } else {
      assert address + n == page * q + (r + n);
      Remainder(address + n, q, r + n, page);
    }
  }

  lemma Remainder(a: nat, q: nat, r: nat, page: nat)
    requires r < page && a == page * q + r
    ensures a % page == r
  {
    var e := a / page;
    if e < q {
      MultipleMono(page, e + 1, q);
    } else if e > q {
      MultipleMono(page, q + 1, e);
    }
  }

  lemma MultipleMono(page: nat, x: nat, y: nat)
    requires x <= y
    ensures page * x <= page * y
  {}

  /** Once an instruction of 256 octets or more is due, the cast leaves at least 256 for the next one, until nothing is written. */
  lemma {:induction false} LargeSticks(address: nat, length: nat, limit: nat, page: nat)
    requires page > 0 && Chunk(address, length, limit, page) >= 0x100
    ensures Sticks(address, length, limit, page)
    decreases length
  {
    var n := Octets(address, length, limit, page);
    if n > 0 {
      PageStep(address, n, page);
      LargeSticks(address + n, length - n, limit, page);
    }
  }

  /** A job sticks exactly if its write limit is 0 or it is oversized. */
  lemma {:induction false} StuckChunk(address: nat, length: nat, limit: nat, page: nat)
    requires page > 0
    ensures Sticks(address, length, limit, page) <==> length > 0 && (limit == 0 || Oversized(address, length, limit, page))
    decreases length
  {
    var n := Octets(address, length, limit, page);
    if Chunk(address, length, limit, page) >= 0x100 {
      LargeSticks(address, length, limit, page);
    } else if length > 0 && n > 0 {
      PageStep(address, n, page);
      StuckChunk(address + n, length - n, limit, page);
    }
  }

  /** The instructions of a job that does not stick. */
  function WritePlan(address: nat, data: seq<octet>, limit: nat, page: nat): seq<Program>
    requires page > 0 && !Sticks(address, |data|, limit, page)
    decreases |data|
  {
    if data == [] then [] else
    var n := Octets(address, |data|, limit, page);
    [Program(address, data[..n])] + WritePlan(address + n, data[n..], limit, page)
  }

  function Payload(plan: seq<Program>): seq<octet> {
    if plan == [] then [] else plan[0].data + Payload(plan[1..])
  }

  /** The instructions follow one another without gap or overlap from `address` on. */
  ghost predicate Contiguous(plan: seq<Program>, address: nat) {
    plan == [] || (plan[0].address == address && Contiguous(plan[1..], address + |plan[0].data|))
  }

  /** The plan writes exactly the data, in order and without gaps. */
  lemma {:induction false} WritePlanExact(address: nat, data: seq<octet>, limit: nat, page: nat)
    requires page > 0 && !Sticks(address, |data|, limit, page)
    ensures Payload(WritePlan(address, data, limit, page)) == data
    ensures Contiguous(WritePlan(address, data, limit, page), address)
    decreases |data|
  {
    if data != [] {
      var n := Octets(address, |data|, limit, page);
      var plan, rest := WritePlan(address, data, limit, page), WritePlan(address + n, data[n..], limit, page);
      assert plan[1..] == rest;
      WritePlanExact(address + n, data[n..], limit, page);
      assert data[..n] + data[n..] == data;
    }
  }

  /** A job that does not stick has no instruction the cast could shorten. */
  lemma NeverLarge(address: nat, length: nat, limit: nat, page: nat)
    requires page > 0 && !Sticks(address, length, limit, page)
    ensures Octets(address, length, limit, page) == Chunk(address, length, limit, page)
  {
    if Chunk(address, length, limit, page) >= 0x100 {
      LargeSticks(address, length, limit, page);
    }
  }

  /** No instruction is empty, too long or leaves its page, and all but the last are as long as they can be. */
  lemma {:induction false} WritePlanFits(address: nat, data: seq<octet>, limit: nat, page: nat, i: nat)
    requires page > 0 && !Sticks(address, |data|, limit, page)
    requires i < |WritePlan(address, data, limit, page)|
    ensures WritePlan(address, data, limit, page)[i].Fits(limit, page)
    ensures i == 0 ==> WritePlan(address, data, limit, page)[i].address == address
    ensures var plan := WritePlan(address, data, limit, page);
            i + 1 < |plan| ==> plan[i].Full(limit, page) && plan[i + 1].address == plan[i].address + |plan[i].data|
    decreases |data|
  {
    var n := Octets(address, |data|, limit, page);
    if i == 0 {
      NeverLarge(address, |data|, limit, page);
      assert 0 < n <= Chunk(address, |data|, limit, page);
      PageStep(address, n, page);
    } else {
      WritePlanFits(address + n, data[n..], limit, page, i - 1);
    }
  }

  class WriteJob {
    var startAddress: nat
    var data: seq<octet>         // what is still to be written
    const writeLimit: nat
    const pageSize: nat
    var programs: seq<Program>   // the instructions accepted by the chip
    const upstreamCallback: bool
    const otaCallback: bool
    var scheduled: bool
    var upstream: seq<Status>
    var otaCalls: nat

    constructor (start: nat, data: seq<octet>, writeLimit: nat, pageSize: nat, upstreamCallback: bool, otaCallback: bool)
      ensures startAddress == start && this.data == data && this.writeLimit == writeLimit && this.pageSize == pageSize
      ensures this.upstreamCallback == upstreamCallback && this.otaCallback == otaCallback
      ensures programs == [] && scheduled && upstream == [] && otaCalls == 0
    {
      startAddress, this.data, this.writeLimit, this.pageSize := start, data, writeLimit, pageSize;
      this.upstreamCallback, this.otaCallback := upstreamCallback, otaCallback;
      programs, scheduled, upstream, otaCalls := [], true, [], 0;
    }

    /** One call of the job's helper. */
    method Helper(programStatus: Status, scheduleStatus: Status)
      requires pageSize > 0
      modifies this`startAddress, this`data, this`programs, this`scheduled, this`upstream, this`otaCalls
      ensures old(data) == [] ==>
                && !scheduled && data == [] && startAddress == old(startAddress) && programs == old(programs)
                && upstream == old(upstream) + (if upstreamCallback then [Success] else []) && otaCalls == old(otaCalls) + (if otaCallback then 1 else 0)
      ensures old(data) != [] ==> otaCalls == old(otaCalls)
      ensures old(data) != [] && programStatus == Success ==>
                var n := Octets(old(startAddress), |old(data)|, writeLimit, pageSize);
                && programs == old(programs) + [Program(old(startAddress), old(data)[..n])]
                && startAddress == old(startAddress) + n && data == old(data)[n..]
                && (scheduleStatus == Success ==> scheduled && upstream == old(upstream))
                && (scheduleStatus.Refused? ==> !scheduled && upstream == old(upstream) + (if upstreamCallback then [scheduleStatus] else []))
      ensures old(data) != [] && programStatus.Refused? ==>
                && !scheduled && data == old(data) && startAddress == old(startAddress)
                && programs == old(programs) && upstream == old(upstream) + (if upstreamCallback then [programStatus] else [])
    {
      scheduled := false;
      var status := Success;
      if |data| > 0 {
        var count := Octets(startAddress, |data|, writeLimit, pageSize);
        status := programStatus;
        if status == Success {
          programs := programs + [Program(startAddress, data[..count])];
          startAddress := startAddress + count;
          data := data[count..];
          status := scheduleStatus;
          scheduled := scheduleStatus == Success;
        }
        if status == Success {
          status := Busy;
        }
      }
      if status != Busy {
        if upstreamCallback {
          upstream := upstream + [status];
        }
        if status == Success && otaCallback {
          otaCalls := otaCalls + 1;
        }
      }
    }

    /** A whole job without refusals that does not stick. */
    method RunToCompletion()
      requires pageSize > 0 && !Sticks(startAddress, |data|, writeLimit, pageSize) && scheduled
      modifies this`startAddress, this`data, this`programs, this`scheduled, this`upstream, this`otaCalls
      ensures !scheduled && data == [] && upstream == old(upstream) + (if upstreamCallback then [Success] else []) && otaCalls == old(otaCalls) + (if otaCallback then 1 else 0)
      ensures programs == old(programs) + WritePlan(old(startAddress), old(data), writeLimit, pageSize)
    {
      ghost var all := programs + WritePlan(startAddress, data, writeLimit, pageSize);
      while scheduled
        invariant !Sticks(startAddress, |data|, writeLimit, pageSize)
        invariant programs + WritePlan(startAddress, data, writeLimit, pageSize) == all
        invariant scheduled ==> upstream == old(upstream) && otaCalls == old(otaCalls)
        invariant !scheduled ==>
                    data == [] && upstream == old(upstream) + (if upstreamCallback then [Success] else []) && otaCalls == old(otaCalls) + (if otaCallback then 1 else 0)
        decreases |data|, scheduled
      {
        Helper(Success, Success);
      }
    }

    /** A job that sticks: however often it is called back, it never finishes and never reports. */
    method RunStuck(calls: nat)
      requires pageSize > 0 && Sticks(startAddress, |data|, writeLimit, pageSize) && scheduled
      modifies this`startAddress, this`data, this`programs, this`scheduled, this`upstream, this`otaCalls
      ensures scheduled && data != [] && upstream == old(upstream) && otaCalls == old(otaCalls)
      ensures Sticks(startAddress, |data|, writeLimit, pageSize)
      ensures calls > |old(data)| ==> Octets(startAddress, |data|, writeLimit, pageSize) == 0
    {
      for i := 0 to calls
        invariant Sticks(startAddress, |data|, writeLimit, pageSize) && scheduled
        invariant upstream == old(upstream) && otaCalls == old(otaCalls)
        invariant Octets(startAddress, |data|, writeLimit, pageSize) == 0 || |data| + i <= |old(data)|
      {
        Helper(Success, Success);
      }
    }

    /** Where it sticks, each call programs nothing and changes nothing. */
    method CallStuck()
      requires pageSize > 0 && data != [] && Octets(startAddress, |data|, writeLimit, pageSize) == 0
      modifies this`startAddress, this`data, this`programs, this`scheduled, this`upstream, this`otaCalls
      ensures scheduled && data == old(data) && startAddress == old(startAddress) && upstream == old(upstream)
      ensures programs == old(programs) + [Program(startAddress, [])] && otaCalls == old(otaCalls)
    {
      Helper(Success, Success);
    }
  }
}
