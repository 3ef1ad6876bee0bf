/** The self-rescheduling erase job on the external flash. */
module EraseJob {
  import opened EraseCover

  const MAX_ADDRESS := 0xF_FFFF
  const KB4 := 0x1000
  const KB32 := 0x8000
  const KB64 := 0x1_0000

  datatype Status = Success | Busy | Failed(code: nat)

  datatype Kind = EraseChip | Erase64KB | Erase32KB | Erase4KB

  /** An erase instruction: the block of that kind which `address` lies in. */
  datatype Command = Command(kind: Kind, address: nat)

  /** AND with a 21-bit mask that clears the bits below a power of two. */
  function Mask(x: nat, unit: nat): nat
    requires unit > 0
  {
    x % 0x20_0000 / unit * unit
  }

  function Choose(start: nat, end: nat): Kind {
    if start < KB4 && end > MAX_ADDRESS - KB4 + 1 then EraseChip
    else if start % KB64 < KB4 && end > Mask(start, KB32) + KB64 - KB4 then Erase64KB
    else if start % KB32 < KB4 && end > Mask(start, KB32) + KB32 - KB4 then Erase32KB
    else Erase4KB
  }

  function NextStart(kind: Kind, start: nat, end: nat): nat {
    if kind == EraseChip then end else
    var unit := if kind == Erase64KB then KB64 else if kind == Erase32KB then KB32 else KB4;
    var boundary := Mask(start + unit, unit);
    if end < boundary then end else boundary
  }

  /** The sectors a command erases. */
  function Extent(c: Command): Block {
    match c.kind
    case EraseChip => Block(0, SECTORS)
    case Erase64KB => Block(c.address / KB64 * 16, 16)
    case Erase32KB => Block(c.address / KB32 * 8, 8)
    case Erase4KB => Block(c.address / KB4, 1)
  }

  function FirstSector(start: nat): nat { start / KB4 }

  function EndSector(end: nat): nat { (end + KB4 - 1) / KB4 }

  predicate OnChip(start: nat, end: nat) { start <= end <= MAX_ADDRESS + 1 }

  /** Blocks, half blocks and sectors nest. */
  lemma Nesting(a: nat)
    ensures a / KB64 == a / KB4 / 16 && a / KB32 == a / KB4 / 8
    ensures a % KB64 < KB4 <==> a / KB4 % 16 == 0
    ensures a % KB32 < KB4 <==> a / KB4 % 8 == 0
  {
    var s, r := a / KB4, a % KB4;
    assert a == KB4 * s + r;
    var u, v := s / 16, s % 16;
    assert a == KB64 * u + (KB4 * v + r) && KB4 * v + r < KB64;
    var x, y := s / 8, s % 8;
    assert a == KB32 * x + (KB4 * y + r) && KB4 * y + r < KB32;
  }

  lemma Masks(a: nat)
    requires a < 0x20_0000
    ensures Mask(a, KB64) == a / KB4 / 16 * KB64 && Mask(a, KB32) == a / KB4 / 8 * KB32 && Mask(a, KB4) == a / KB4 * KB4
  {
    Nesting(a);
  }

  lemma ChooseIsLargest(start: nat, end: nat)
    requires OnChip(start, end) && start < end
    ensures var s, e := FirstSector(start), EndSector(end);
            s < e <= SECTORS && Extent(Command(Choose(start, end), start)) == Block(s, Largest(s, e))
  {
    var s, e := FirstSector(start), EndSector(end);
    Nesting(start);
    Masks(start);
    assert KB4 * s <= start < KB4 * s + KB4 && KB4 * (e - 1) < end <= KB4 * e;
  }

  /** One step in sectors: the code's address tests pick the largest block, and it moves on exactly behind it. */
  lemma StepIsLargest(start: nat, end: nat)
    requires OnChip(start, end) && start < end
    ensures var s, e, k := FirstSector(start), EndSector(end), Choose(start, end);
            var next := NextStart(k, start, end);
            && s < e <= SECTORS
            && Extent(Command(k, start)) == Block(s, Largest(s, e))
            && start < next <= end
            && (if next < end then FirstSector(next) == s + Largest(s, e) else e == s + Largest(s, e))
  {
    var s, e, k := FirstSector(start), EndSector(end), Choose(start, end);
    ChooseIsLargest(start, end);
    if k != EraseChip {
      var n := Largest(s, e);
      assert NextStart(k, start, end) == (if end < KB4 * (s + n) then end else KB4 * (s + n)) by { BoundaryIs(start, end); }
      assert KB4 * s <= start < KB4 * s + KB4 && KB4 * (e - 1) < end <= KB4 * e;
    }
  }

  /** The boundary computed by masking is the end of the block just erased. */
  lemma BoundaryIs(start: nat, end: nat)
    requires OnChip(start, end) && start < end && Choose(start, end) != EraseChip
    ensures var k, b := Choose(start, end), KB4 * (FirstSector(start) + Extent(Command(Choose(start, end), start)).count);
            NextStart(k, start, end) == if end < b then end else b
  {
    Nesting(start);
    match Choose(start, end)
    case Erase64KB => Boundary(start, KB64, 16);
    case Erase32KB => Boundary(start, KB32, 8);
    case Erase4KB => Boundary(start, KB4, 1);
  }

  lemma Boundary(start: nat, unit: nat, n: nat)
    requires start < 0x10_0000
    requires (unit == KB64 && n == 16) || (unit == KB32 && n == 8) || (unit == KB4 && n == 1)
    requires FirstSector(start) % n == 0
    ensures Mask(start + unit, unit) == KB4 * (FirstSector(start) + n)
  {
    hide Mask;
    Masks(start + unit);
    var s := start / KB4;
    assert start == KB4 * s + start % KB4 && unit == KB4 * n;
    assert (start + unit) / KB4 == s + n;
    assert s % n == 0 ==> (s + n) / n * n == s + n;
  }

  /** The commands a job still has to issue. */
  function Plan(start: nat, end: nat): seq<Command>
    requires OnChip(start, end)
    decreases end - start
  {
    if start == end then [] else
    StepIsLargest(start, end);
    var k := Choose(start, end);
    [Command(k, start)] + Plan(NextStart(k, start, end), end)
  }

  function Extents(cs: seq<Command>): seq<Block> { seq(|cs|, i requires 0 <= i < |cs| => Extent(cs[i])) }

  lemma {:induction false} PlanIsGreedy(start: nat, end: nat)
    requires OnChip(start, end) && start < end
    ensures Extents(Plan(start, end)) == Greedy(FirstSector(start), EndSector(end))
    decreases end - start
  {
    var k := Choose(start, end);
    var next := NextStart(k, start, end);
    StepIsLargest(start, end);
    if next < end { PlanIsGreedy(next, end); }
    assert Extents(Plan(start, end)) == [Extent(Command(k, start))] + Extents(Plan(next, end));
  }

  /** A job erases each sector that meets the range exactly once, and no other sector. */
  lemma PlanExact(start: nat, end: nat, x: int)
    requires OnChip(start, end) && start < end
    ensures Erasures(Extents(Plan(start, end)), x) ==
            if 0 <= x && x * 0x1000 < end && start < (x + 1) * 0x1000 then 1 else 0
  {
    PlanIsGreedy(start, end);
    GreedyExact(FirstSector(start), EndSector(end), x);
  }

  /** No set of aligned erase commands with the same effect is smaller. */
  lemma PlanMinimal(start: nat, end: nat, blocks: seq<Block>)
    requires OnChip(start, end) && start < end
    requires forall i :: 0 <= i < |blocks| ==>
               blocks[i].Aligned() && FirstSector(start) <= blocks[i].first && blocks[i].first + blocks[i].count <= EndSector(end)
    requires forall x :: FirstSector(start) <= x < EndSector(end) ==> Hit(blocks, x)
    ensures |Plan(start, end)| <= |blocks|
    ensures Covers(Extents(Plan(start, end)), FirstSector(start), EndSector(end))
  {
    PlanIsGreedy(start, end);
    GreedyMinimal(FirstSector(start), EndSector(end), blocks);
    GreedyCovers(FirstSector(start), EndSector(end));
    assert |Extents(Plan(start, end))| == |Plan(start, end)|;
  }

  class Job {
    var startAddress: nat
    var eraseLength: nat
    var endAddress: nat
    const upstreamCallback: bool
    const otaCallback: bool
    var commands: seq<Command>   // the erase instructions accepted by the chip
    var scheduled: bool          // the helper will be called again
    var upstream: seq<Status>    // what was reported upstream
    var otaCalls: nat

    predicate Valid()
      reads this
    {
      OnChip(startAddress, endAddress) && eraseLength == endAddress - startAddress
    }

    constructor (start: nat, end: nat, upstreamCallback: bool, otaCallback: bool)
      requires OnChip(start, end)
      ensures Valid() && startAddress == start && endAddress == end && scheduled
      ensures commands == [] && upstream == [] && otaCalls == 0
      ensures this.upstreamCallback == upstreamCallback && this.otaCallback == otaCallback
    {
      startAddress, endAddress, eraseLength := start, end, end - start;
      this.upstreamCallback, this.otaCallback := upstreamCallback, otaCallback;
      commands, scheduled, upstream, otaCalls := [], true, [], 0;
    }

    /** Issues the next erase and asks to be called again; the chip and the scheduler may each refuse. */
    method EraseAndReschedule(eraseStatus: Status, scheduleStatus: Status) returns (status: Status)
      requires Valid() && startAddress < endAddress
      modifies this`startAddress, this`eraseLength, this`commands, this`scheduled
      ensures Valid()
      ensures status == if eraseStatus != Success then eraseStatus else scheduleStatus
      ensures eraseStatus == Success ==>
                && commands + Plan(startAddress, endAddress) == old(commands) + Plan(old(startAddress), endAddress)
                && old(startAddress) < startAddress && scheduled == (scheduleStatus == Success)
      ensures eraseStatus != Success ==> commands == old(commands) && startAddress == old(startAddress) && scheduled == old(scheduled)
    {
      var kind := Choose(startAddress, endAddress);
      status := eraseStatus;
      if status == Success {
        StepIsLargest(startAddress, endAddress);
        commands := commands + [Command(kind, startAddress)];
        startAddress := NextStart(kind, startAddress, endAddress);
        eraseLength := endAddress - startAddress;
        status := scheduleStatus;
        scheduled := scheduleStatus == Success;
      }
    }

    /** One call of the job's helper. */
    method Helper(eraseStatus: Status, scheduleStatus: Status)
      requires Valid()
      modifies this
      ensures Valid() && endAddress == old(endAddress)
      ensures commands + Plan(startAddress, endAddress) == old(commands) + Plan(old(startAddress), endAddress)
      ensures old(startAddress) == endAddress ==>
                && startAddress == endAddress && commands == old(commands) && !scheduled
                && upstream == old(upstream) + (if upstreamCallback then [Success] else [])
                && otaCalls == old(otaCalls) + (if otaCallback then 1 else 0)
      ensures old(startAddress) < endAddress && eraseStatus == Success && scheduleStatus == Success ==>
                scheduled && old(startAddress) < startAddress && upstream == old(upstream) && otaCalls == old(otaCalls)
      ensures old(startAddress) < endAddress && eraseStatus.Failed? ==>
                && !scheduled && commands == old(commands) && startAddress == old(startAddress)
                && upstream == old(upstream) + (if upstreamCallback then [eraseStatus] else []) && otaCalls == old(otaCalls)
      ensures old(startAddress) < endAddress && eraseStatus == Success && scheduleStatus.Failed? ==>
                && !scheduled && upstream == old(upstream) + (if upstreamCallback then [scheduleStatus] else [])
                && otaCalls == old(otaCalls)
    {
      scheduled := false;
      var status := Success;
      if eraseLength != 0 {
        status := EraseAndReschedule(eraseStatus, scheduleStatus);
        if status == Success {
          status := Busy;
        }
      }
      if status != Busy {
        if upstreamCallback {
          upstream := upstream + [status];
        }
        if status == Success && otaCallback {
          otaCalls := otaCalls + 1;
        }
      }
    }

    /** The job called back until it stops asking: it issues its whole plan and reports success once. */
    method RunToCompletion()
      requires Valid() && scheduled
      modifies this
      ensures Valid() && !scheduled && startAddress == endAddress == old(endAddress)
      ensures commands == old(commands) + Plan(old(startAddress), old(endAddress))
      ensures upstream == old(upstream) + (if upstreamCallback then [Success] else [])
      ensures otaCalls == old(otaCalls) + (if otaCallback then 1 else 0)
    {
      while scheduled
        invariant Valid() && endAddress == old(endAddress)
        invariant commands + Plan(startAddress, endAddress) == old(commands) + Plan(old(startAddress), old(endAddress))
        invariant scheduled ==> upstream == old(upstream) && otaCalls == old(otaCalls)
        invariant !scheduled ==>
                    && startAddress == endAddress
                    && upstream == old(upstream) + (if upstreamCallback then [Success] else [])
                    && otaCalls == old(otaCalls) + (if otaCallback then 1 else 0)
        decreases endAddress - startAddress, scheduled
      {
        Helper(Success, Success);
      }
    }
  }
}
