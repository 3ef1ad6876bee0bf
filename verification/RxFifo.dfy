/** The SPI receive ring, filled by interrupts, and the main loop that drains it. */
module RxFifo {

  const SIZE := 7
  const RESERVED := 4

  datatype Message = Message(commandId: nat, payload: seq<nat>)

  datatype Status = Success | InvalidState

  /** Where the main loop stands between two atomic steps. */
  datatype Pc =
    | Idle        // outside the dispatcher
    | Looping     // about to look whether the ring is empty
    | NonEmpty    // the ring was not empty; about to look whether its only slot is still being filled
    | Holding     // a message is out for delivery, its slot not yet released

  /** What can happen next: an interrupt step, a call of the dispatcher, or one step of the running dispatcher. */
  datatype Event =
    | BeginReceive | BeginOther | Complete(message: Message) | WaitSync(waiting: bool)
    | Dispatch | Step

  /** Slots allocated between the two indices; equal indices mean an empty ring unless the full flag is set. */
  function Used(start: nat, end: nat, full: bool): nat
    requires start < SIZE && end < SIZE
  {
    if full then SIZE else if end >= start then end - start else end + SIZE - start
  }

  function SlotAt(start: nat, i: nat): nat
    requires start < SIZE && i < SIZE
  {
    if start + i < SIZE then start + i else start + i - SIZE
  }

  lemma Successor(i: nat)
    requires i < SIZE
    ensures (i + 1) % SIZE == if i + 1 < SIZE then i + 1 else 0
  {}

  class Receiver {
    const slots: array<Message>
    var start: nat
    var end: nat
    var full: bool
    var waterMark: nat
    var highWaterMark: nat
    var exchangeInProgress: bool
    var waiting: bool             // a synchronous response is awaited
    var isDispatching: bool
    var pc: Pc
    var delivered: seq<Message>   // handed to the upstream dispatcher, in order
    ghost var contents: seq<Message>  // completely received and still in the ring
    ghost var arrived: seq<Message>   // completely received into the ring, in order
    var filling: bool             // the hardware transfer in progress is into the ring's newest slot

    constructor ()
      ensures Valid() && arrived == [] && fresh(slots)
    {
      slots := new Message[SIZE](_ => Message(0xFF, []));
      start, end, full, waterMark, highWaterMark := 0, 0, false, 0, 0;
      exchangeInProgress, waiting, isDispatching, pc := false, false, false, Idle;
      delivered, arrived, contents, filling := [], [], [], false;
    }

    /** Slots allocated. */
    function Count(): nat
      requires start < SIZE && end < SIZE
      reads this
    {
      Used(start, end, full)
    }

    /** The ring's indices are consistent, and `contents` is what its completely received slots hold, oldest first. */
    ghost predicate Shape()
      reads this, slots
    {
      && slots.Length == SIZE && start < SIZE && end < SIZE && (full ==> start == end)
      && waterMark == Count() <= highWaterMark
      && (filling ==> exchangeInProgress && Count() > 0)
      && |contents| == Count() - (if filling then 1 else 0)
      && forall i {:trigger contents[i]} :: 0 <= i < |contents| ==> slots[SlotAt(start, i)] == contents[i]
    }

    /** Everything received is either delivered or waiting in the ring, in order of arrival; the message out for delivery is both. */
    ghost predicate Valid()
      reads this, slots
    {
      && Shape()
      && (isDispatching <==> pc != Idle)
      && (pc == NonEmpty ==> Count() > 0)
      && (if pc == Holding then
            contents != [] && delivered != [] && delivered[|delivered| - 1] == contents[0] && delivered + contents[1..] == arrived
          else delivered + contents == arrived)
    }

    predicate IsEmpty()
      reads this
    {
      start == end && !full
    }

    predicate IsSingleInUse()
      reads this
    {
      end == (start + 1) % SIZE && exchangeInProgress
    }

    /** Allocates the next slot for an exchange that starts at once, unless the ring is full. */
    method GetFreeBuf() returns (ok: bool)
      requires Valid() && !exchangeInProgress
      modifies this`end, this`full, this`waterMark, this`highWaterMark, this`exchangeInProgress, this`filling
      ensures Valid() && ok == (old(Count()) < 7) && exchangeInProgress == filling == ok
      ensures contents == old(contents) && Count() == old(Count()) + if ok then 1 else 0
    {
      ok := !full;
      if ok {
        Successor(end);
        end := (end + 1) % SIZE;
        IncrementWaterMark();
        if start == end {
          full := true;
        }
        exchangeInProgress, filling := true, true;
        assert Count() == old(Count()) + 1;
      }
    }

    method IncrementWaterMark()
      modifies this`waterMark, this`highWaterMark
      ensures waterMark == old(waterMark) + 1
      ensures highWaterMark == if waterMark > old(highWaterMark) then waterMark else old(highWaterMark)
    {
      waterMark := waterMark + 1;
      if waterMark > highWaterMark {
        highWaterMark := waterMark;
      }
    }

    /** An exchange that stores nothing in the ring: a transmission, or a synchronous response. */
    method BeginOther()
      requires Valid()
      modifies this`exchangeInProgress
      ensures Valid() && exchangeInProgress
    {
      exchangeInProgress := true;
    }

    method AwaitSync(on: bool)
      requires Valid()
      modifies this`waiting
      ensures Valid() && waiting == on
    {
      waiting := on;
    }

    /** The transfer-complete interrupt. */
    method ExchangeComplete(m: Message)
      requires Valid() && exchangeInProgress
      modifies this`exchangeInProgress, this`filling, this`arrived, this`contents, slots
      ensures Valid() && !exchangeInProgress && !filling && Count() == old(Count())
      ensures contents == old(contents) + (if old(filling) then [m] else [])
      ensures arrived == old(arrived) + (if old(filling) then [m] else [])
    {
      if filling {
        slots[SlotAt(start, Count() - 1)] := m;
        arrived, contents := arrived + [m], contents + [m];
        filling := false;
      }
      exchangeInProgress := false;
    }

    /** The second half of a peek: the oldest slot, unless it is the only one and still being filled. */
    method PeekNonEmpty() returns (slot: nat, ok: bool)
      requires Valid() && Count() > 0
      ensures ok ==> slot < SIZE && contents != [] && slots[slot] == contents[0] && !(filling && slot == SlotAt(start, Count() - 1))
      ensures ok <==> !(Count() == 1 && exchangeInProgress)
    {
      Successor(start);
      slot, ok := start, !IsSingleInUse();
    }

    /** Releases the oldest slot. */
    method DequeueFullBuf()
      requires Valid() && pc == Holding
      modifies this`start, this`full, this`waterMark, this`contents, this`pc
      ensures Valid() && pc == Looping && contents == old(contents[1..]) && Count() == old(Count()) - 1
    {
      if !IsEmpty() {
        Successor(start);
        start := (start + 1) % SIZE;
        full := false;
        waterMark := waterMark - 1;
        contents := contents[1..];
      }
      pc := Looping;
    }

    /** With no synchronous response awaited: at most the reserved number of slots is free. */
    method IsFifoAlmostFull() returns (r: bool)
      requires Valid()
      ensures r == if waiting then Count() == 7 else 7 - Count() <= 4
    {
      if waiting {
        return full;
      }
      if full {
        return true;
      }
      for i := 1 to RESERVED + 1
        invariant SIZE - Count() >= i
      {
        if start == (end + i) % SIZE {
          return true;
        }
      }
      return false;
    }

    /** Entry to the dispatcher; re-entry from a callback is refused and changes nothing. */
    method Enter() returns (status: Status)
      requires Valid()
      modifies this`isDispatching, this`pc
      ensures Valid() && status == if old(pc) == Idle then Success else InvalidState
      ensures pc == if old(pc) == Idle then Looping else old(pc)
    {
      if isDispatching {
        return InvalidState;
      }
      isDispatching, pc := true, Looping;
      return Success;
    }

    /** One atomic step of the dispatcher's loop. */
    method Advance()
      requires Valid() && pc != Idle
      modifies this`isDispatching, this`pc, this`delivered, this`start, this`full, this`waterMark, this`contents
      ensures Valid()
      ensures old(pc) == Holding ==> pc == Looping && delivered == old(delivered) && contents == old(contents[1..])
      ensures old(pc) != Holding ==> contents == old(contents) && Count() == old(Count())
      ensures old(pc) == Looping ==> pc == (if Count() == 0 then Idle else NonEmpty) && delivered == old(delivered)
      ensures old(pc) == NonEmpty ==> pc == if Count() == 1 && exchangeInProgress then Idle else Holding
      ensures old(pc) == NonEmpty && pc == Holding ==> contents != [] && delivered == old(delivered) + [contents[0]]
      ensures old(pc) == NonEmpty && pc == Idle ==> delivered == old(delivered)
    {
      if pc == Looping {
        if IsEmpty() {
          isDispatching, pc := false, Idle;
        } else {
          pc := NonEmpty;
        }
      } else if pc == NonEmpty {
        var slot, ok := PeekNonEmpty();
        if ok {
          delivered := delivered + [slots[slot]];
          pc := Holding;
        } else {
          isDispatching, pc := false, Idle;
        }
      } else {
        DequeueFullBuf();
      }
    }

    lemma FillingIsExchange()
      requires Valid()
      ensures filling ==> exchangeInProgress
    {}

    /** Any event, in any state; an exchange waits while another is in progress. */
    method Occur(e: Event)
      requires Valid()
      modifies this, slots
      ensures Valid()
      ensures arrived == old(arrived) + if e.Complete? && old(filling) then [e.message] else []
      ensures delivered == old(delivered) + if e.Step? && old(pc) == NonEmpty && pc == Holding then [contents[0]] else []
      ensures e.Complete? ==> !exchangeInProgress
      ensures e.BeginReceive? ==> exchangeInProgress == (old(exchangeInProgress) || old(Count()) < SIZE)
      ensures e.BeginReceive? ==> filling == if old(exchangeInProgress) then old(filling) else old(Count()) < SIZE
      ensures e.BeginOther? ==> exchangeInProgress && filling == old(filling)
      ensures e.Dispatch? ==> pc == if old(pc) == Idle then Looping else old(pc)
      ensures e.Step? ==> pc == match old(pc)
                case Idle => Idle
                case Looping => if old(Count()) == 0 then Idle else NonEmpty
                case NonEmpty => if old(Count()) == 1 && old(exchangeInProgress) then Idle else Holding
                case Holding => Looping
      ensures !e.BeginReceive? && !e.BeginOther? && !e.Complete? ==> exchangeInProgress == old(exchangeInProgress) && filling == old(filling)
      ensures !e.Dispatch? && !e.Step? ==> pc == old(pc)
      ensures waiting == if e.WaitSync? then e.waiting else old(waiting)
    {
      hide Valid, Shape, Count;
      FillingIsExchange();
      match e {
        case BeginReceive =>
          if !exchangeInProgress {
            var ok := GetFreeBuf();
          }
        case BeginOther =>
          BeginOther();
        case Complete(m) =>
          if exchangeInProgress {
            ExchangeComplete(m);
          }
        case WaitSync(w) =>
          AwaitSync(w);
        case Dispatch =>
          var status := Enter();
        case Step =>
          if pc != Idle {
            Advance();
          }
      }
    }

    /**
     * Every interleaving of interrupts, dispatcher steps and re-entrant calls: what has been delivered is, message for
     * message, what arrived first, and the water mark is the number of slots in use.
     */
    method Interleave(events: seq<Event>)
      requires Valid()
      modifies this, slots
      ensures Valid() && delivered <= arrived && waterMark == Count()
      ensures |arrived| == |delivered| + |contents| - if pc == Holding then 1 else 0
    {
      for i := 0 to |events|
        invariant Valid()
      {
        Occur(events[i]);
      }
    }

    /** The dispatcher run without interruption delivers everything received, unless an exchange is still going on. */
    method DispatchAll()
      requires Valid() && pc == Idle
      modifies this`isDispatching, this`pc, this`delivered, this`start, this`full, this`waterMark, this`contents
      ensures Valid() && pc == Idle && arrived == old(arrived)
      ensures !exchangeInProgress ==> delivered == arrived && Count() == 0
    {
      var status := Enter();
      while pc != Idle
        invariant Valid() && (!exchangeInProgress && pc == Idle ==> Count() == 0)
        decreases Count(), match pc case Looping => 3 case NonEmpty => 2 case Holding => 1 case Idle => 0
      {
        Advance();
      }
    }
  }
}
