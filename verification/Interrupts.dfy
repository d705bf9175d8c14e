/** The internal interrupt controller of the HAL: the handler table, the enable word, and the dispatch loop. */
module Interrupts {
  import opened Words
  import opened Nesting

  const NIRQ := 32

  /** An entry of alt_irq: a null function pointer, or a handler with its context. */
  datatype Entry = NoHandler | Isr(handler: nat, context: nat)

  /** The place of a line in the table. */
  function Slot(i: Line): (k: nat)
    ensures k < NIRQ
  {
    i as nat
  }

  lemma LineAt(irq: nat)
    requires irq < NIRQ
    ensures Slot(irq as Line) == irq
  {
  }

  lemma SlotsDiffer(i: Line, j: Line)
    ensures Slot(i) == Slot(j) <==> i == j
  {
  }

  class Controller {
    var active: bv32        // alt_irq_active
    var ienable: bv32       // the IENABLE control register
    var mask: bv32          // alt_priority_mask
    var pie: bool           // status.PIE
    const table: array<Entry>

    ghost function Registers(): Regs
      reads `active, `ienable, `mask, `pie
    {
      Regs(active, ienable, mask, pie)
    }

    /** Only lines with a handler are enabled. */
    ghost predicate Valid()
      reads this, table
    {
      && table.Length == NIRQ
      && (forall i: Line :: Bit(active, i) ==> table[Slot(i)] != NoHandler)
      && (forall i: Line :: Bit(ienable, i) ==> Bit(active, i))
    }

    constructor ()
      ensures Valid() && fresh(table) && Registers() == BOOT
    {
      hide Bit, Slot;
      active, ienable, mask, pie := 0, 0, ALL, true;
      table := new Entry[NIRQ](_ => NoHandler);
      ScanNeedsPending(0);
    }

    /** `alt_irq_disable_all`; the result restores the state before, so that critical sections nest. */
    method DisableAll() returns (context: bool)
      modifies `pie
      ensures !pie && context == old(pie)
    {
      context := pie;
      pie := false;
    }

    /** `alt_irq_enable_all` */
    method EnableAll(context: bool)
      modifies `pie
      ensures pie == context
    {
      pie := context;
    }

    /** `alt_irq_enable`. Enabling a line without a handler is what breaks the table. */
    method IrqEnable(id: Line)
      requires Valid()
      modifies `active, `ienable, `pie
      ensures Valid() <==> table[Slot(id)] != NoHandler
      ensures Registers() == WithActive(old(Registers()), With(old(active), id))
    {
      hide Bit, With, Slot;
      var status := DisableAll();
      forall i: Line
        ensures Bit(With(active, id), i) <==> Bit(active, i) || i == id
      {
        WithBit(active, id, i);
      }
      active := With(active, id);
      ienable := active;
      EnableAll(status);
    }

    /** `alt_irq_disable` */
    method IrqDisable(id: Line)
      requires table.Length == NIRQ
      requires forall i: Line :: i != id && Bit(active, i) ==> table[Slot(i)] != NoHandler
      modifies `active, `ienable, `pie
      ensures Valid() && Registers() == WithActive(old(Registers()), Without(old(active), id))
    {
      hide Bit, Without, Slot;
      var status := DisableAll();
      forall i: Line
        ensures Bit(Without(active, id), i) <==> Bit(active, i) && i != id
      {
        WithoutBit(active, id, i);
      }
      active := Without(active, id);
      ienable := active;
      EnableAll(status);
    }

    /** `alt_iic_isr_register`: the handler and the enable bit change together; a null handler disables the line. An
        id from 32 on is an error (-EINVAL). */
    method Register(irq: nat, isr: Entry) returns (ok: bool)
      requires Valid() && irq < 0x8000_0000
      modifies `active, `ienable, `pie, table
      ensures Valid() && ok == (irq < 32)
      ensures !ok ==> Registers() == old(Registers()) && table[..] == old(table[..])
      ensures ok ==>
                && table[..] == old(table[..])[irq := isr]
                && var now := if isr == NoHandler then Without(old(active), irq as Line) else With(old(active), irq as Line);
                   Registers() == WithActive(old(Registers()), now)
    {
      hide Bit, With, Without, Slot;
      ok := false;
      if irq < NIRQ {
        LineAt(irq);
        RegisterLine(irq as Line, isr);
        ok := true;
      }
    }

    method RegisterLine(id: Line, isr: Entry)
      requires Valid()
      modifies `active, `ienable, `pie, table
      ensures Valid() && table[..] == old(table[..])[Slot(id) := isr]
      ensures var now := if isr == NoHandler then Without(old(active), id) else With(old(active), id);
              Registers() == WithActive(old(Registers()), now)
    {
      hide Bit, With, Without, Slot;
      var status := DisableAll();
      forall i: Line
        ensures Slot(i) == Slot(id) <==> i == id
      {
        SlotsDiffer(i, id);
      }
      table[Slot(id)] := isr;
      if isr == NoHandler {
        IrqDisable(id);
      } else {
        IrqEnable(id);
      }
      EnableAll(status);
    }

    /** `alt_irq_interruptible`: only lines of higher priority may interrupt from here on. */
    method AllowPreemption(priority: Line) returns (saved: bv32)
      requires Valid()
      modifies `mask, `ienable, `pie
      ensures Valid() && Registers() == Interruptible(old(Registers()), priority) && saved == old(mask)
    {
      hide Slot, Bit, Gate, Below;
      saved := mask;
      mask := Below(priority);
      GateKeepsActive(active, mask);
      ienable := Gate(active, mask);
      pie := true;
    }

    /** `alt_irq_non_interruptible` */
    method ForbidPreemption(saved: bv32)
      requires Valid()
      modifies `mask, `ienable, `pie
      ensures Valid() && Registers() == NonInterruptible(old(Registers()), saved)
    {
      hide Slot, Bit, Gate;
      pie := false;
      mask := saved;
      GateKeepsActive(active, mask);
      ienable := Gate(active, saved);
    }

    ghost function Now(): (now: Snapshot)
      reads this, table
      ensures Valid() ==> now.Valid()
    {
      hide Bit, Slot;
      Snapshot(ienable, table[..])
    }

    /** What a handler does to the controller: it may register and unregister handlers. */
    method RunHandler(entry: Entry)
      requires Valid()
      modifies `active, `ienable, `pie, table
      ensures Valid()
    {
      hide Controller.Valid, With, Without;
      var changes: nat := *;
      while changes > 0
        invariant Valid()
      {
        changes := changes - 1;
        var irq: nat, isr: Entry := *, *;
        if irq < 0x8000_0000 {
          var _ := Register(irq, isr);
        }
      }
    }

    /** `alt_irq_handler`, entered with a pending line. `requests` are the lines that the devices request at each
        reading of IPENDING, up to the end of the run under consideration; `seen` is the controller at these readings.
        Each pass calls the handler of the line of highest priority that is pending then, and there always is one,
        whatever the handlers before have registered; it ends when none is pending. */
    method Dispatch(requests: seq<bv32>) returns (lines: seq<Line>, called: seq<Entry>, ghost seen: seq<Snapshot>)
      requires Valid() && requests != [] && Pending(requests[0], ienable) != 0
      modifies `active, `ienable, `pie, table
      ensures Valid() && 0 < |lines| == |called| == |seen| <= |requests| && seen[0] == old(Now())
      ensures forall k :: 0 <= k < |lines| ==> Served(seen[k], requests[k], lines[k], called[k])
      ensures |lines| < |requests| ==> Pending(requests[|lines|], ienable) == 0
    {
      hide Slot, Bit, Pending, IsLowest, Controller.Valid, Snapshot.Valid, Served;
      lines, called, seen := [], [], [];
      var active := Pending(requests[0], ienable);
      while true
        invariant Valid() && |lines| == |called| == |seen| < |requests|
        invariant active == Pending(requests[|lines|], ienable) && active != 0
        invariant if seen == [] then Now() == old(Now()) else seen[0] == old(Now())
        invariant forall k :: 0 <= k < |lines| ==> Served(seen[k], requests[k], lines[k], called[k])
        decreases |requests| - |lines|
      {
        var i := FindLowest(active);
        var entry := Fetch(requests[|lines|], i);
        lines, called, seen := lines + [i], called + [entry], seen + [Now()];
        RunHandler(entry);
        if |lines| == |requests| {
          break;
        }
        active := Pending(requests[|lines|], ienable);
        if active == 0 {
          break;
        }
      }
    }

    method Fetch(request: bv32, i: Line) returns (entry: Entry)
      requires Valid() && IsLowest(Pending(request, ienable), i)
      ensures Served(Now(), request, i, entry)
    {
      hide Slot, Bit, Pending, IsLowest;
      LowestIsEnabled(request, ienable, i);
      entry := table[Slot(i)];
    }
  }

  /** IENABLE and the handler table at one moment. */
  datatype Snapshot = Snapshot(ienable: bv32, table: seq<Entry>) {
    ghost predicate Valid() {
      |table| == NIRQ && forall i: Line :: Bit(ienable, i) ==> table[Slot(i)] != NoHandler
    }
  }

  /** `entry` is the handler of the line of highest priority that was pending. */
  ghost predicate Served(at: Snapshot, request: bv32, line: Line, entry: Entry) {
    at.Valid() && IsLowest(Pending(request, at.ienable), line) && entry == at.table[Slot(line)] && entry != NoHandler
  }

  lemma GateKeepsActive(active: bv32, mask: bv32)
    ensures forall i: Line :: Bit(Gate(active, mask), i) ==> Bit(active, i)
  {
    hide Bit;
    forall i: Line
      ensures Bit(Gate(active, mask), i) ==> Bit(active, i)
    {
      AndBit(active, mask, i);
    }
  }

  lemma LowestIsEnabled(request: bv32, ienable: bv32, i: Line)
    requires IsLowest(Pending(request, ienable), i)
    ensures Bit(ienable, i) && Bit(request, i)
  {
    AndBit(request, ienable, i);
  }
}
