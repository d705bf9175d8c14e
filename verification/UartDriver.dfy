/** The interrupt-driven JTAG UART driver. `Irq` and `Timeout` run at interrupt level; `Write`, `Read` and `Close` are
    foreground code, and between any two of their accesses to shared state `Preempt` lets any number of interrupts,
    timer callbacks and host actions happen. Only the two updates of the interrupt enables run with interrupts off. */
module UartDriver {
  import opened Ring
  import opened UartDevice

  const INT_MAX := 0x7FFF_FFFF

  /** What a call did: C's non-negative count, -EWOULDBLOCK, -EIO, or still spinning at the end of the run. */
  datatype Outcome = Returned(count: nat) | WouldBlock | IoError | StillRunning

  /** A call of the application. */
  datatype Call =
    | CallWrite(data: seq<byte>, nonblock: bool)
    | CallRead(space: nat, nonblock: bool)
    | CallClose(nonblock: bool)
    | CallSetTimeout(arg: int)

  /** The shadow of the RE and WE bits, `irq_enable`. */
  datatype Enables = Enables(re: bool, we: bool)

  function Min(a: nat, b: nat): nat { if a <= b then a else b }

  /** Appending the next `n` elements of `s` to `base + s[..k]`. */
  lemma Extend<T>(base: seq<T>, s: seq<T>, k: nat, n: nat)
    requires k + n <= |s|
    ensures base + s[..k] + s[k..k + n] == base + s[..k + n]
    ensures base + s[..k] + s[k..][..n] == base + s[..k + n]
  {
  }

  /** Filling in `n` more elements behind the first `got`. */
  lemma Burst<T>(base: seq<T>, start: seq<T>, before: seq<T>, after: seq<T>, got: nat, n: nat)
    requires |start| == |before| == |after| && got + n <= |after| && before[got..] == start[got..]
    requires after[..got] == before[..got] && after[got + n..] == before[got + n..]
    ensures base + before[..got] + after[got..got + n] == base + after[..got + n]
    ensures after[got + n..] == start[got + n..]
  {
    assert after[..got + n] == after[..got] + after[got..got + n];
    assert before[got + n..] == before[got..][n..] && start[got + n..] == start[got..][n..];
  }

  /** What follows a common beginning inherits the prefix relation. */
  lemma PrefixAfter<T>(base: seq<T>, a: seq<T>, b: seq<T>)
    requires base + a <= base + b
    ensures a <= b
  {
    assert a == (base + a)[|base|..] && b == (base + b)[|base|..];
  }

  /** What the writes of a run have to send. */
  function ToSend(calls: seq<Call>): seq<byte> {
    if calls == [] then [] else ToSend(calls[..|calls| - 1]) + DataOf(calls[|calls| - 1])
  }

  function DataOf(call: Call): seq<byte> { if call.CallWrite? then call.data else [] }

  predicate AllBlock(calls: seq<Call>) { forall i :: 0 <= i < |calls| && calls[i].CallWrite? ==> !calls[i].nonblock }

  lemma ToSendUpTo(calls: seq<Call>, i: nat)
    requires i < |calls|
    ensures ToSend(calls[..i + 1]) == ToSend(calls[..i]) + DataOf(calls[i])
  {
    assert calls[..i + 1][..i] == calls[..i];
  }

  class Driver {
    const dev: Device
    const rxBuf: array<byte>
    const txBuf: array<byte>
    var timeout: nat
    var hostInactive: nat
    var alarmStarted: bool
    var irqEnable: Enables
    var rxIn: nat
    var rxOut: nat
    var txIn: nat
    var txOut: nat

    // How many interrupt-level events are left in the (finite part of the) run under consideration.
    var budget: nat

    ghost var sightings: nat        // how often the timer callback has seen the host
    ghost var rounds: nat           // how often Write has filled the buffer and enabled the write interrupt
    ghost var waits: nat            // how often a call has begun to wait
    ghost var accepted: seq<byte>   // all bytes ever queued by Write
    ghost var delivered: seq<byte>  // all bytes ever handed out by Read

    ghost predicate Shape()
      reads `rxIn, `rxOut, `txIn, `txOut
    {
      && rxBuf != txBuf
      && rxBuf.Length == txBuf.Length >= 2
      && rxIn < rxBuf.Length && rxOut < rxBuf.Length
      && txIn < txBuf.Length && txOut < txBuf.Length
    }

    ghost function RxRing(): seq<byte>
      requires Shape()
      reads `rxIn, `rxOut, `txIn, `txOut, rxBuf
    {
      Contents(rxBuf[..], rxOut, rxIn)
    }

    ghost function TxRing(): seq<byte>
      requires Shape()
      reads `rxIn, `rxOut, `txIn, `txOut, txBuf
    {
      Contents(txBuf[..], txOut, txIn)
    }

    /** Free slots of the transmit buffer. */
    ghost function TxFree(): nat
      requires Shape()
      reads `rxIn, `rxOut, `txIn, `txOut, txBuf
    {
      txBuf.Length - 1 - |TxRing()|
    }

    /** What holds between any two steps of any interleaving. */
    ghost predicate Inv()
      reads this, dev, rxBuf, txBuf
    {
      && Shape()
      && dev.Valid()
      && accepted == dev.stored + TxRing()
      && dev.popped == delivered + RxRing()
      && irqEnable == Enables(dev.re, dev.we)
      && hostInactive <= INT_MAX - 2
      && 2 <= timeout <= INT_MAX
      && (!alarmStarted ==> timeout == INT_MAX && hostInactive == 0)
    }

    /** No lost transmit interrupt: queued bytes keep the write interrupt on. */
    ghost predicate TxArmed()
      requires Shape()
      reads `rxIn, `rxOut, `txIn, `txOut, dev, txBuf
    {
      TxRing() != [] ==> dev.we
    }

    /** No lost receive interrupt: the read interrupt is off only while there is no room. */
    ghost predicate RxArmed()
      requires Shape()
      reads `rxIn, `rxOut, `txIn, `txOut, dev, rxBuf
    {
      !dev.re ==> |RxRing()| == rxBuf.Length - 1
    }

    /** What holds when no Write and no Read is in progress. */
    ghost predicate Ready()
      reads this, dev, rxBuf, txBuf
    {
      Inv() && TxArmed() && RxArmed()
    }

    /** What interrupt-level code does to the foreground's view: bytes only move on, and an armed side stays armed. */
    twostate predicate Progress()
      requires old(Shape()) && Shape()
      reads this, dev, rxBuf, txBuf
    {
      && old(dev.popped) <= dev.popped
      && old(dev.stored) <= dev.stored
      && (old(TxArmed()) ==> TxArmed())
      && (old(RxArmed()) ==> RxArmed())
    }

    /** Without an event at interrupt level, the foreground finds what interrupt level owns as it was. The inactivity
        counter rises by at most one an event, and does not fall unless the host is seen. */
    twostate predicate Undisturbed()
      reads this
    {
      && (budget == old(budget) ==> hostInactive == old(hostInactive) && txOut == old(txOut) && rxIn == old(rxIn))
      && hostInactive + budget <= old(hostInactive) + old(budget)
      && old(sightings) <= sightings && (sightings == old(sightings) ==> old(hostInactive) <= hostInactive)
    }

    /** Free receive slots + queued transmit bytes + RE + WE: bounds the passes of the interrupt routine. */
    ghost function Work(): (w: nat)
      requires Shape()
      reads `rxIn, `rxOut, `txIn, `txOut, dev, rxBuf, txBuf
      ensures w <= 2 * rxBuf.Length
    {
      (rxBuf.Length - 1 - |RxRing()|) + |TxRing()| + (if dev.re then 1 else 0) + (if dev.we then 1 else 0)
    }

    /** `altera_avalon_jtag_uart_init`, on the statically zeroed state with its default timeout of 10; `alarmStarts`
        says whether alt_alarm_start succeeded. */
    constructor (dev: Device, bufLen: nat, alarmStarts: bool, budget: nat)
      requires bufLen >= 2 && dev.Valid() && dev.popped == dev.stored == []
      modifies dev`re, dev`we, dev`ri, dev`wi, dev`ac
      ensures Ready() && fresh(rxBuf) && fresh(txBuf) && this.dev == dev && this.budget == budget
      ensures accepted == delivered == [] && rxBuf.Length == bufLen
      ensures alarmStarted == alarmStarts && hostInactive == 0
      ensures irqEnable == Enables(true, false)
      ensures timeout == if alarmStarts then 10 else INT_MAX
    {
      this.dev := dev;
      rxBuf, txBuf := new byte[bufLen], new byte[bufLen];
      timeout := 10;
      rxIn, rxOut, txIn, txOut := 0, 0, 0, 0;
      accepted, delivered, sightings, rounds, waits := [], [], 0, 0, 0;
      irqEnable := Enables(true, false);
      hostInactive := 0;
      alarmStarted := alarmStarts;
      this.budget := budget;
      new;
      dev.WriteControl(irqEnable.re, irqEnable.we, false);
      if !alarmStarts {
        timeout := INT_MAX;
      }
    }

    // ----- interrupt level -----

    /** `irq_enable = e; IOWR(CONTROL, irq_enable)`, which always run with the CPU's interrupts off: between the two
        the shadow and the device disagree, and only the host can act. */
    method SetEnables(e: Enables)
      requires Inv()
      modifies `irqEnable, dev
      ensures Inv() && irqEnable == e && |dev.txFifo| <= |old(dev.txFifo)|
      ensures dev.popped == old(dev.popped) && dev.stored == old(dev.stored)
    {
      irqEnable := e;
      dev.HostRun();
      dev.WriteControl(irqEnable.re, irqEnable.we, false);
    }

    /** Pops the DATA register once and queues the byte if it was valid. */
    method ReceiveNext() returns (data: Data)
      requires Inv() && |RxRing()| < rxBuf.Length - 1
      modifies `rxIn, dev, rxBuf
      ensures Inv() && dev.stored == old(dev.stored) && |dev.txFifo| <= |old(dev.txFifo)|
      ensures if data.valid then dev.popped == old(dev.popped) + [data.value] else dev.popped == old(dev.popped)
      ensures data.avail == |dev.rxFifo|
      ensures !data.valid ==> old(dev.rxFifo) == dev.rxFifo == []
    {
      hide Contents;
      dev.HostRun();
      data := dev.ReadData();
      if data.valid {
        StoreReceived(data.value);
      }
    }

    /** `rx_buf[rx_in] = value; rx_in = (rx_in + 1) % BUF_LEN`. */
    method StoreReceived(value: byte)
      requires Shape() && |RxRing()| < rxBuf.Length - 1
      modifies `rxIn, rxBuf
      ensures Shape() && RxRing() == old(RxRing()) + [value]
    {
      ghost var before := rxBuf[..];
      rxBuf[rxIn] := value;
      FreeRun(before, rxBuf[..], rxOut, rxIn, 1);
      Append(rxBuf[..], rxOut, rxIn, 1);
      rxIn := (rxIn + 1) % rxBuf.Length;
    }

    /** The receive half of a pass: fill the buffer while there is room and data, then turn RE off if data is left. */
    method ReceiveFromFifo()
      requires Inv() && dev.re && dev.rxFifo != []
      modifies `rxIn, `irqEnable, dev, rxBuf
      ensures Inv()
      ensures old(dev.popped) <= dev.popped && dev.stored == old(dev.stored)
      ensures |dev.txFifo| <= |old(dev.txFifo)| && dev.we == old(dev.we)
      ensures if dev.re then |dev.popped| > |old(dev.popped)| && dev.rxFifo == [] else |RxRing()| == rxBuf.Length - 1
    {
      var data := Data(false, 0, 1);
      while true
        invariant Inv() && irqEnable == old(irqEnable)
        invariant old(dev.popped) <= dev.popped && dev.stored == old(dev.stored)
        invariant |dev.txFifo| <= |old(dev.txFifo)|
        invariant dev.popped == old(dev.popped) ==> dev.rxFifo != [] && data.avail > 0
        invariant data.avail == 0 ==> dev.rxFifo == []
        decreases rxBuf.Length - |RxRing()|
      {
        var next := Wrap(rxIn + 1, rxBuf.Length);
        if next == rxOut {
          break;
        }
        data := ReceiveNext();
        if !data.valid {
          break;
        }
      }
      if data.avail > 0 {
        SetEnables(irqEnable.(re := false));
      }
    }

    /** Stores the oldest queued byte to the DATA register and moves `tx_out`. */
    method SendNext()
      requires Inv() && TxRing() != [] && |dev.txFifo| < dev.txDepth
      modifies `txOut, dev
      ensures Inv() && dev.popped == old(dev.popped) && |dev.txFifo| <= |old(dev.txFifo)| + 1
      ensures dev.stored == old(dev.stored) + [old(TxRing())[0]]
    {
      hide Contents;
      dev.HostRun();
      Drop(txBuf[..], txOut, txIn, 1);
      assert txBuf[txOut] == TxRing()[..1][0];
      dev.WriteData(txBuf[txOut]);
      txOut := Wrap(txOut + 1, txBuf.Length);
    }

    /** The transmit half of a pass: store up to `space` queued bytes, then turn WE off if the queue ran dry first. */
    method TransmitToFifo(space: nat)
      requires Inv() && dev.we && 0 < space <= dev.txDepth - |dev.txFifo|
      modifies `txOut, `irqEnable, dev
      ensures Inv()
      ensures old(dev.stored) <= dev.stored && dev.popped == old(dev.popped) && dev.re == old(dev.re)
      ensures |dev.stored| == |old(dev.stored)| + Min(space, |old(TxRing())|)
      ensures dev.we == (|old(TxRing())| >= space)
    {
      var left := space;
      while left > 0 && txOut != txIn
        invariant Inv() && irqEnable == old(irqEnable)
        invariant left <= space && left <= dev.txDepth - |dev.txFifo|
        invariant old(dev.stored) <= dev.stored && dev.popped == old(dev.popped)
        invariant |dev.stored| == |old(dev.stored)| + (space - left)
        decreases left
      {
        SendNext();
        left := left - 1;
      }
      if left > 0 {
        SetEnables(irqEnable.(we := false));
      }
    }

    /** One pass of the interrupt routine, for a CONTROL word with RI or WI set: it always does some of the work. */
    method Pass(control: Control)
      requires Inv() && (control.ri || control.wi)
      requires control.ri ==> dev.re && dev.rxFifo != []
      requires control.wi ==> dev.we && 0 < control.wspace <= dev.txDepth - |dev.txFifo|
      modifies `rxIn, `txOut, `irqEnable, dev, rxBuf
      ensures Inv() && Progress() && Work() < old(Work())
      ensures control.ri && dev.re ==> |dev.popped| > |old(dev.popped)|
      ensures |dev.stored| == |old(dev.stored)| + if control.wi then Min(control.wspace, |old(TxRing())|) else 0
    {
      if control.ri {
        ReceiveFromFifo();
      }
      assert Progress();
      assert Work() <= old(Work()) && (control.ri ==> Work() < old(Work()));
      if control.wi {
        TransmitToFifo(control.wspace);
      }
    }

    /** `altera_avalon_jtag_uart_irq`. Only the host runs beside it. It ends after at most 2 * BUF_LEN passes, with
        nothing left to do: neither interrupt line is up. */
    method Irq() returns (ghost passes: nat)
      requires Inv()
      modifies `rxIn, `txOut, `irqEnable, dev, rxBuf
      ensures Inv() && Progress()
      ensures !dev.ri && !dev.wi
      ensures passes <= old(Work()) <= 2 * rxBuf.Length
    {
      hide Contents, Queued;
      passes := 0;
      while true
        invariant Inv() && Progress()
        invariant passes + Work() <= old(Work())
        decreases Work()
      {
        dev.HostRun();
        var control := dev.ReadControl();
        if !control.ri && !control.wi {
          break;
        }
        Pass(control);
        passes := passes + 1;
      }
    }

    /** `altera_avalon_jtag_uart_timeout`, the once-a-second alarm callback. */
    method Timeout()
      requires Inv() && alarmStarted
      modifies `hostInactive, `sightings, dev
      ensures Inv() && dev.popped == old(dev.popped) && dev.stored == old(dev.stored)
      ensures dev.re == old(dev.re) && dev.we == old(dev.we)
      ensures if old(dev.ac) then hostInactive == 0 && !dev.ac
              else hostInactive == Min(old(hostInactive) + 1, INT_MAX - 2)
      ensures sightings == old(sightings) + if old(dev.ac) then 1 else 0
    {
      var control := dev.ReadControl();
      dev.HostRun();
      if control.ac {
        dev.WriteControl(irqEnable.re, irqEnable.we, true);
        hostInactive := 0;
        sightings := sightings + 1;
      } else if hostInactive < INT_MAX - 2 {
        hostInactive := hostInactive + 1;
      }
    }

    /** One event at interrupt level, atomic for the foreground: the interrupt routine, the timer callback if the
        alarm was started, or host actions only. */
    method Event()
      requires Inv() && budget > 0
      modifies `rxIn, `txOut, `irqEnable, `hostInactive, `sightings, `budget, dev, rxBuf
      ensures Inv() && Progress() && budget == old(budget) - 1 && Undisturbed()
    {
      hide Contents, Queued;
      budget := budget - 1;
      if {
        case true =>
          ghost var passes := Irq();
        case alarmStarted =>
          Timeout();
        case true =>
          dev.HostRun();
      }
    }

    /** What can happen between two steps of the foreground: at least `least` events. */
    method Preempt(least: nat)
      requires Inv() && least <= budget
      modifies `rxIn, `txOut, `irqEnable, `hostInactive, `sightings, `budget, dev, rxBuf
      ensures Inv() && Progress() && budget + least <= old(budget)
      ensures Undisturbed()
    {
      var events: nat :| least <= events <= budget;
      for done := 0 to events
        invariant Inv() && Progress() && budget == old(budget) - done && Undisturbed()
      {
        Event();
      }
    }

    // ----- foreground -----

    /** `tx_buf[i] = b`, for a slot in the free run that starts at `tx_in`. */
    method StoreFree(i: nat, b: byte)
      requires Inv() && txIn <= i < txBuf.Length && |TxRing()| + i + 1 - txIn < txBuf.Length
      modifies txBuf
      ensures Inv() && TxRing() == old(TxRing()) && txBuf[..] == old(txBuf[..])[i := b]
    {
      ghost var before := txBuf[..];
      txBuf[i] := b;
      FreeRun(before, txBuf[..], txOut, txIn, i + 1 - txIn);
    }

    /** memcpy(tx_buf + tx_in, data): interrupts may come before, between and after its bytes. */
    method CopyToTxBuffer(data: seq<byte>)
      requires Inv() && txIn + |data| <= txBuf.Length && |TxRing()| + |data| < txBuf.Length
      modifies `rxIn, `txOut, `irqEnable, `hostInactive, `sightings, `budget, dev, rxBuf, txBuf
      ensures Inv() && Progress() && txBuf[txIn..txIn + |data|] == data && budget <= old(budget) && Undisturbed()
    {
      hide Contents, Queued, Driver.RxRing, Driver.RxArmed, Device.Valid;
      for j := 0 to |data|
        invariant Inv() && Progress() && budget <= old(budget) && Undisturbed()
        invariant txBuf[txIn..txIn + j] == data[..j]
      {
        Preempt(0);
        StoreFree(txIn + j, data[j]);
        assert txBuf[txIn..txIn + (j + 1)] == txBuf[txIn..txIn + j] + [data[j]];
      }
      Preempt(0);
    }

    /** Copies `data` into the free run and publishes it by moving `tx_in`, `tx_in = (in + n) % BUF_LEN`. */
    method Enqueue(data: seq<byte>)
      requires Inv() && txIn + |data| <= txBuf.Length && |TxRing()| + |data| < txBuf.Length
      modifies `rxIn, `txIn, `txOut, `irqEnable, `hostInactive, `sightings, `budget, `accepted, dev, rxBuf, txBuf
      ensures Inv() && budget <= old(budget) && old(dev.popped) <= dev.popped
      ensures old(RxArmed()) ==> RxArmed()
      ensures accepted == old(accepted) + data && |TxRing()| <= |old(TxRing())| + |data|
      ensures Undisturbed() && (budget == old(budget) ==> |TxRing()| == |old(TxRing())| + |data|)
    {
      hide Contents;
      CopyToTxBuffer(data);
      Append(txBuf[..], txOut, txIn, |data|);
      txIn := Wrap(txIn + |data|, txBuf.Length);
      accepted := accepted + data;
    }

    /** Largest burst that write copies at once, from its values of `tx_in` and `tx_out`. It never exceeds the free
        slots nor the end of the buffer, and is zero only for a full buffer. */
    function WriteBurst(inn: nat, out: nat): (n: nat)
      requires txBuf.Length >= 2 && inn < txBuf.Length && out < txBuf.Length
      ensures inn + n <= txBuf.Length && Queued(out, inn, txBuf.Length) + n < txBuf.Length
      ensures n == 0 <==> Queued(out, inn, txBuf.Length) == txBuf.Length - 1
    {
      if inn < out then out - 1 - inn
      else if out > 0 then txBuf.Length - inn
      else txBuf.Length - 1 - inn
    }

    /** The inner loop of write: queue as much as fits. `out` is the last value read from `tx_out`. */
    method FillTxBuffer(ptr: seq<byte>) returns (taken: nat, out: nat)
      requires Inv() && RxArmed()
      modifies `rxIn, `txIn, `txOut, `irqEnable, `hostInactive, `sightings, `budget, `accepted, dev, rxBuf, txBuf
      ensures Inv() && RxArmed() && budget <= old(budget) && old(dev.popped) <= dev.popped
      ensures taken <= |ptr| && accepted == old(accepted) + ptr[..taken]
      ensures taken >= Min(|ptr|, old(TxFree()))
      ensures taken < |ptr| ==> out < txBuf.Length && Queued(out, txIn, txBuf.Length) == txBuf.Length - 1
      ensures Undisturbed() && (budget == old(budget) ==> taken == Min(|ptr|, old(TxFree())))
      ensures budget == old(budget) && taken < |ptr| ==> out == txOut
    {
      hide Contents, Driver.RxRing, Driver.RxArmed, Driver.TxArmed, Device.Valid;
      hide Driver.WriteBurst, Queued;
      taken, out := 0, 0;
      while taken < |ptr|
        invariant Inv() && RxArmed() && budget <= old(budget) && old(dev.popped) <= dev.popped
        invariant taken <= |ptr| && accepted == old(accepted) + ptr[..taken]
        invariant TxFree() + taken >= old(TxFree())
        invariant Undisturbed() && (budget == old(budget) ==> TxFree() + taken == old(TxFree()))
        decreases |ptr| - taken
      {
        Preempt(0);
        var inn := txIn;
        out := txOut;
        var n := WriteBurst(inn, out);
        if n == 0 {
          break;
        }
        if n > |ptr| - taken {
          n := |ptr| - taken;
        }
        Preempt(0);
        Enqueue(ptr[taken..taken + n]);
        Extend(old(accepted), ptr, taken, n);
        taken := taken + n;
      }
    }

    /** The first half of a round of write: fill the buffer, then enable the write interrupt. */
    method FillAndKick(ptr: seq<byte>) returns (taken: nat, out: nat)
      requires Inv() && RxArmed()
      modifies `rxIn, `txIn, `txOut, `irqEnable, `hostInactive, `sightings, `budget, `accepted, `rounds, dev, rxBuf, txBuf
      ensures rounds == old(rounds) + 1
      ensures Ready() && dev.we && budget <= old(budget) && old(dev.popped) <= dev.popped
      ensures taken <= |ptr| && accepted == old(accepted) + ptr[..taken]
      ensures taken >= Min(|ptr|, old(TxFree()))
      ensures taken < |ptr| ==> out < txBuf.Length && Queued(out, txIn, txBuf.Length) == txBuf.Length - 1
      ensures Undisturbed() && (budget == old(budget) ==> taken == Min(|ptr|, old(TxFree())))
      ensures budget == old(budget) && taken < |ptr| ==> out == txOut
    {
      hide Contents, Queued;
      taken, out := FillTxBuffer(ptr);
      Preempt(0);
      SetEnables(irqEnable.(we := true));
      rounds := rounds + 1;
    }

    /** `while (out == sp->tx_out && sp->host_inactive < sp->timeout);`, entered with a buffer that was full when
        `out` was read. Stuck means that the run ends here; otherwise `expired` tells a timeout from a removal. */
    method SpinWhileFull(out: nat) returns (stuck: bool, expired: bool)
      requires Ready() && out < txBuf.Length && Queued(out, txIn, txBuf.Length) == txBuf.Length - 1
      modifies `rxIn, `txOut, `irqEnable, `hostInactive, `sightings, `budget, dev, rxBuf
      ensures Ready() && budget <= old(budget) && old(dev.popped) <= dev.popped
      ensures stuck ==> budget == 0 && TxFree() == 0 && dev.we && hostInactive < timeout
      ensures !stuck && !expired ==> TxFree() > 0
      ensures expired ==> hostInactive >= timeout
      ensures Undisturbed() && (budget == old(budget) && out == old(txOut) ==> stuck == (hostInactive < timeout))
    {
      hide Contents, Queued, Driver.RxRing, Driver.RxArmed, Device.Valid;
      while true
        invariant Ready() && budget <= old(budget) && old(dev.popped) <= dev.popped
        invariant Queued(out, txIn, txBuf.Length) == txBuf.Length - 1
        invariant Undisturbed()
        decreases budget
      {
        var last := budget == 0;
        Preempt(0);
        NoReturn(out, txOut, txIn, txIn, txBuf.Length);
        if out != txOut {
          return false, false;
        }
        Preempt(0);
        if hostInactive >= timeout {
          return false, true;
        }
        if last {
          return true, false;
        }
        if budget > 0 {
          Preempt(1);
        }
      }
    }

    /** The spin, and the test whether to go on: not with an inactive host. It takes room or the timeout to get there. */
    method WaitForRoom(out: nat) returns (stuck: bool, stop: bool)
      requires Ready() && out < txBuf.Length && Queued(out, txIn, txBuf.Length) == txBuf.Length - 1
      modifies `rxIn, `txOut, `irqEnable, `hostInactive, `sightings, `budget, `waits, dev, rxBuf
      ensures waits == old(waits) + 1
      ensures Ready() && budget <= old(budget) && old(dev.popped) <= dev.popped && Undisturbed()
      ensures stuck ==> budget == 0 && TxFree() == 0 && dev.we && hostInactive < timeout
      ensures !stuck ==> stop == (hostInactive > 0)
      ensures !stuck ==> TxFree() > 0 || old(hostInactive) + (old(budget) - budget) >= timeout
      ensures budget == old(budget) && out == old(txOut) ==> stuck == (hostInactive < timeout) && stop == !stuck
    {
      hide Contents, Queued, Driver.RxRing, Driver.RxArmed, Driver.TxArmed, Device.Valid;
      stop := false;
      waits := waits + 1;
      var expired;
      stuck, expired := SpinWhileFull(out);
      if !stuck {
        Preempt(0);
        stop := hostInactive > 0;
      }
    }

    /** `altera_avalon_jtag_uart_write`. `taken` bytes of `ptr` were queued, in order. */
    method Write(ptr: seq<byte>, nonblock: bool) returns (r: Outcome, taken: nat)
      requires Ready()
      modifies `rxIn, `txIn, `txOut, `irqEnable, `hostInactive, `sightings, `budget, `accepted, `rounds, `waits, dev, rxBuf, txBuf
      ensures Ready() && old(dev.popped) <= dev.popped
      ensures taken <= |ptr| && accepted == old(accepted) + ptr[..taken]
      ensures taken >= Min(|ptr|, old(TxFree()))
      ensures r != StillRunning ==> r == (if taken > 0 then Returned(taken) else if nonblock then WouldBlock else IoError)
      ensures r != StillRunning && !nonblock && taken < |ptr| ==> hostInactive > 0
      ensures r == IoError ==> ptr == [] || (old(TxFree()) == 0 && hostInactive > 0)
      // it gives up on a buffer that stays full only after the timeout ...
      ensures r != StillRunning && !nonblock && taken < |ptr| ==>
                TxFree() > 0 || old(hostInactive) + (old(budget) - budget) >= timeout
      // ... and fills the buffer a second time only for a host that was seen
      ensures old(hostInactive) > 0 && sightings == old(sightings) && r != StillRunning ==> rounds == old(rounds) + 1
      // it does not wait if it need not or must not
      ensures nonblock || |ptr| <= old(TxFree()) ==> waits == old(waits) && rounds == old(rounds) + 1
      ensures r == StillRunning ==> !nonblock && taken < |ptr| && budget == 0
      ensures r == StillRunning ==> TxFree() == 0 && dev.we && hostInactive < timeout
      ensures !alarmStarted && !nonblock && r != StillRunning && ptr != [] ==> r == Returned(|ptr|)
      // with nothing more to come from interrupt level, the outcome is known beforehand
      ensures old(budget) == 0 ==>
                && taken == Min(|ptr|, old(TxFree()))
                && (r == StillRunning <==> !nonblock && old(TxFree()) < |ptr| && old(hostInactive) < timeout)
    {
      hide Contents, Queued, Driver.RxRing, Driver.TxRing, Driver.RxArmed, Driver.TxArmed, Driver.TxFree, Device.Valid, Driver.Shape;
      taken := 0;
      var first := true;
      while true
        invariant Ready() && old(dev.popped) <= dev.popped
        invariant (first || taken < |ptr|) && taken <= |ptr| && accepted == old(accepted) + ptr[..taken]
        invariant if first then taken == 0 && TxFree() >= old(TxFree()) else taken >= Min(|ptr|, old(TxFree()))
        invariant hostInactive + budget <= old(hostInactive) + old(budget)
        invariant old(sightings) <= sightings && (sightings == old(sightings) ==> old(hostInactive) <= hostInactive)
        invariant if first then rounds == old(rounds) && waits == old(waits) else hostInactive == 0 && !nonblock
        invariant !first ==> |ptr| > old(TxFree())
        invariant old(budget) == 0 ==> first && budget == 0 && TxFree() == old(TxFree()) && hostInactive == old(hostInactive)
        decreases |ptr| - taken, budget, first
      {
        var n, out := FillAndKick(ptr[taken..]);
        Extend(old(accepted), ptr, taken, n);
        taken, first := taken + n, false;
        if taken == |ptr| || nonblock {
          break;
        }
        var stuck, stop := WaitForRoom(out);
        if stuck {
          return StillRunning, taken;
        }
        if stop {
          break;
        }
      }
      r := if taken > 0 then Returned(taken) else if nonblock then WouldBlock else IoError;
    }

    /** memcpy(buffer + at, rx_buf + rx_out, n): interrupts may come before, between and after its bytes, and append to the
        ring. */
    method CopyFromRxBuffer(buffer: array<byte>, at: nat, n: nat)
      requires Inv() && buffer != rxBuf && buffer != txBuf && at + n <= buffer.Length
      requires rxOut + n <= rxBuf.Length && n <= |RxRing()|
      modifies `rxIn, `txOut, `irqEnable, `hostInactive, `sightings, `budget, dev, rxBuf, buffer
      ensures Inv() && Progress() && budget <= old(budget) && Undisturbed()
      ensures old(RxRing()) <= RxRing()
      ensures buffer[..] == old(buffer[..])[..at] + old(RxRing())[..n] + old(buffer[..])[at + n..]
    {
      hide Contents, Queued, Wrap, Driver.TxRing, Driver.TxArmed, Driver.RxArmed, Device.Valid;
      ghost var before, ring := buffer[..], RxRing();
      for j := 0 to n
        invariant Inv() && Progress() && budget <= old(budget) && ring <= RxRing() && Undisturbed()
        invariant buffer[..] == before[..at] + ring[..j] + before[at + j..]
      {
        PreemptReader(ring);
        QueuedByte(ring, j);
        buffer[at + j] := rxBuf[rxOut + j];
      }
      PreemptReader(ring);
    }

    lemma QueuedByte(ring: seq<byte>, j: nat)
      requires Shape() && ring <= RxRing() && j < |ring| && rxOut + j < rxBuf.Length
      ensures rxBuf[rxOut + j] == ring[j]
    {
      hide Contents;
      assert RxRing()[j] == ring[j];
      Oldest(rxBuf[..], rxOut, rxIn, j);
    }

    /** Preemption as the reader sees it: what was queued stays queued, at the same place. */
    method PreemptReader(ghost ring: seq<byte>)
      requires Inv() && ring <= RxRing()
      modifies `rxIn, `txOut, `irqEnable, `hostInactive, `sightings, `budget, dev, rxBuf
      ensures Inv() && Progress() && budget <= old(budget) && ring <= RxRing() && Undisturbed()
    {
      hide Contents;
      Preempt(0);
      PrefixAfter(delivered, old(RxRing()), RxRing());
    }

    /** Copies `n` queued bytes out and gives their slots back, `rx_out = (out + n) % BUF_LEN`. */
    method Dequeue(buffer: array<byte>, at: nat, n: nat)
      requires Inv() && TxArmed() && buffer != rxBuf && buffer != txBuf && at + n <= buffer.Length
      requires rxOut + n <= rxBuf.Length && n <= |RxRing()|
      modifies `rxIn, `rxOut, `txOut, `irqEnable, `hostInactive, `sightings, `budget, `delivered, dev, rxBuf, buffer
      ensures Inv() && TxArmed() && budget <= old(budget) && |RxRing()| >= |old(RxRing())| - n
      ensures Undisturbed() && (budget == old(budget) ==> |RxRing()| == |old(RxRing())| - n)
      ensures delivered == old(delivered) + buffer[at..at + n]
      ensures buffer[..at] == old(buffer[..at]) && buffer[at + n..] == old(buffer[at + n..])
    {
      hide Contents, Queued, Device.Valid;
      CopyFromRxBuffer(buffer, at, n);
      Drop(rxBuf[..], rxOut, rxIn, n);
      rxOut := Wrap(rxOut + n, rxBuf.Length);
      delivered := delivered + buffer[at..at + n];
    }

    /** Longest run that read copies at once, from its values of `rx_in` and `rx_out`: never past the queued bytes nor
        past the end of the buffer, and zero only for an empty buffer. */
    function ReadBurst(inn: nat, out: nat): (n: nat)
      requires rxBuf.Length >= 2 && inn < rxBuf.Length && out < rxBuf.Length
      ensures out + n <= rxBuf.Length && n <= Queued(out, inn, rxBuf.Length)
      ensures n == 0 <==> inn == out
    {
      if inn >= out then inn - out else rxBuf.Length - out
    }

    /** `in = sp->rx_in`, and what may happen until it is used: what was queued at the sample is queued still. */
    method SampleRxIn() returns (inn: nat)
      requires Inv()
      modifies `rxIn, `txOut, `irqEnable, `hostInactive, `sightings, `budget, dev, rxBuf
      ensures Inv() && Progress() && budget <= old(budget) && Undisturbed() && inn < rxBuf.Length
      ensures |old(RxRing())| <= Queued(rxOut, inn, rxBuf.Length) <= |RxRing()|
      ensures budget == old(budget) ==> inn == rxIn
    {
      hide Contents, Queued, Driver.TxRing, Driver.TxArmed, Driver.RxArmed, Device.Valid;
      Preempt(0);
      inn := rxIn;
      Preempt(0);
    }

    /** The inner loop of read: take as much as there is. `inn` is the last value read from `rx_in`. */
    method DrainRxBuffer(buffer: array<byte>) returns (got: nat, inn: nat)
      requires Ready() && buffer.Length > 0 && buffer != rxBuf && buffer != txBuf
      modifies `rxIn, `rxOut, `txOut, `irqEnable, `hostInactive, `sightings, `budget, `delivered, dev, rxBuf, buffer
      ensures Inv() && TxArmed() && budget <= old(budget) && got <= buffer.Length
      ensures delivered == old(delivered) + buffer[..got] && buffer[got..] == old(buffer[..])[got..]
      ensures got >= Min(buffer.Length, |old(RxRing())|)
      ensures got == 0 ==> RxArmed() && inn == rxOut
      ensures Undisturbed() && (budget == old(budget) ==> got == Min(buffer.Length, |old(RxRing())|))
      ensures budget == old(budget) && got == 0 ==> inn == rxIn
    {
      hide Contents, Queued, Wrap, Driver.ReadBurst, Driver.TxRing, Driver.TxArmed, Device.Valid;
      got := 0;
      while true
        invariant Inv() && TxArmed() && budget <= old(budget) && got < buffer.Length
        invariant delivered == old(delivered) + buffer[..got] && buffer[got..] == old(buffer[..])[got..]
        invariant |RxRing()| + got >= |old(RxRing())|
        invariant got == 0 ==> RxArmed()
        invariant Undisturbed() && (budget == old(budget) ==> |RxRing()| + got == |old(RxRing())|)
        decreases buffer.Length - got
      {
        inn := SampleRxIn();
        var out := rxOut;
        var n := ReadBurst(inn, out);
        if n == 0 {
          break;
        }
        if n > buffer.Length - got {
          n := buffer.Length - got;
        }
        ghost var before := buffer[..];
        Dequeue(buffer, got, n);
        Burst(old(delivered), old(buffer[..]), before, buffer[..], got, n);
        got := got + n;
        if got == buffer.Length {
          break;
        }
      }
    }

    /** `while (in == sp->rx_in && sp->host_inactive < sp->timeout);`, entered with an empty buffer at the sample. */
    method SpinWhileEmpty(inn: nat) returns (stuck: bool, expired: bool)
      requires Ready() && inn == rxOut
      modifies `rxIn, `txOut, `irqEnable, `hostInactive, `sightings, `budget, dev, rxBuf
      ensures Ready() && Progress() && budget <= old(budget)
      ensures stuck ==> budget == 0 && RxRing() == [] && dev.re && hostInactive < timeout
      ensures !stuck && !expired ==> inn != rxIn
      ensures expired ==> hostInactive >= timeout
      ensures Undisturbed() && (budget == old(budget) && inn == old(rxIn) ==> stuck == (hostInactive < timeout))
    {
      hide Contents, Queued, Driver.TxRing, Driver.TxArmed, Device.Valid;
      while true
        invariant Ready() && Progress() && budget <= old(budget)
        invariant Undisturbed()
        decreases budget
      {
        var last := budget == 0;
        Preempt(0);
        if inn != rxIn {
          return false, false;
        }
        Preempt(0);
        if hostInactive >= timeout {
          return false, true;
        }
        if last {
          return true, false;
        }
        if budget > 0 {
          Preempt(1);
        }
      }
    }

    /** The spin, and the test whether anything has come: if not, the timeout has passed. */
    method WaitForData(inn: nat) returns (stuck: bool, stop: bool)
      requires Ready() && inn == rxOut
      modifies `rxIn, `txOut, `irqEnable, `hostInactive, `sightings, `budget, `waits, dev, rxBuf
      ensures waits == old(waits) + 1
      ensures Ready() && Progress() && budget <= old(budget) && Undisturbed()
      ensures stuck ==> budget == 0 && RxRing() == [] && dev.re && hostInactive < timeout
      ensures !stuck ==> stop == (inn == rxIn)
      ensures stop ==> timeout <= INT_MAX - 2 && old(hostInactive) + (old(budget) - budget) >= timeout
      ensures budget == old(budget) && inn == old(rxIn) ==> stuck == (hostInactive < timeout)
      ensures budget == old(budget) && inn != old(rxIn) ==> !stuck && !stop
    {
      hide Contents, Queued, Driver.TxRing, Driver.RxArmed, Driver.TxArmed, Device.Valid;
      stop := false;
      waits := waits + 1;
      var expired;
      stuck, expired := SpinWhileEmpty(inn);
      if !stuck {
        Preempt(0);
        stop := inn == rxIn;
      }
    }

    /** The outer loop of read, up to where the read interrupt is enabled again. */
    method ReadSome(buffer: array<byte>, nonblock: bool) returns (got: nat, stuck: bool)
      requires Ready() && buffer != rxBuf && buffer != txBuf
      modifies `rxIn, `rxOut, `txOut, `irqEnable, `hostInactive, `sightings, `budget, `delivered, `waits, dev, rxBuf, buffer
      ensures Inv() && TxArmed() && (got == 0 ==> RxArmed()) && got <= buffer.Length && Undisturbed()
      ensures delivered == old(delivered) + buffer[..got] && buffer[got..] == old(buffer[..])[got..]
      ensures got >= Min(buffer.Length, |old(RxRing())|)
      ensures !stuck && got == 0 && !nonblock && buffer.Length > 0 ==>
                timeout <= INT_MAX - 2 && old(hostInactive) + (old(budget) - budget) >= timeout
      ensures nonblock || old(RxRing()) != [] || buffer.Length == 0 ==> waits == old(waits)
      ensures stuck ==> !nonblock && buffer.Length > 0 && got == 0 && budget == 0
      ensures stuck ==> RxRing() == [] && dev.re && hostInactive < timeout
      ensures old(budget) == 0 ==>
                && got == Min(buffer.Length, |old(RxRing())|)
                && (stuck <==> !nonblock && buffer.Length > 0 && old(RxRing()) == [] && old(hostInactive) < timeout)
    {
      hide Contents, Queued, Driver.ReadBurst, Driver.TxRing, Driver.TxArmed, Device.Valid;
      stuck := false;
      got := 0;
      while buffer.Length > 0
        invariant waits == old(waits) || (!nonblock && old(RxRing()) == [] && buffer.Length > 0)
        invariant Ready() && got == 0 && delivered == old(delivered) && buffer[..] == old(buffer[..])
        invariant |RxRing()| >= |old(RxRing())| && Undisturbed()
        invariant old(budget) == 0 ==> budget == 0 && |RxRing()| == |old(RxRing())| && hostInactive == old(hostInactive)
        decreases budget
      {
        var inn;
        got, inn := DrainRxBuffer(buffer);
        if got > 0 || nonblock {
          break;
        }
        assert old(RxRing()) == [] && buffer.Length > 0;
        var stop;
        stuck, stop := WaitForData(inn);
        if stuck {
          return got, true;
        }
        if stop {
          break;
        }
      }
    }

    /** `altera_avalon_jtag_uart_read`: the bytes land at the start of `buffer`, in order. */
    method Read(buffer: array<byte>, nonblock: bool) returns (r: Outcome, got: nat)
      requires Ready() && buffer != rxBuf && buffer != txBuf
      modifies `rxIn, `rxOut, `txOut, `irqEnable, `hostInactive, `sightings, `budget, `delivered, `waits, dev, rxBuf, buffer
      ensures Ready() && got <= buffer.Length
      ensures delivered == old(delivered) + buffer[..got] && buffer[got..] == old(buffer[..])[got..]
      ensures got >= Min(buffer.Length, |old(RxRing())|)
      ensures r != StillRunning ==> r == (if got > 0 then Returned(got) else if nonblock then WouldBlock else IoError)
      ensures got > 0 ==> dev.re
      ensures r == IoError ==> buffer.Length == 0 || (old(RxRing()) == [] && timeout <= INT_MAX - 2)
      ensures r == IoError && buffer.Length > 0 ==> old(hostInactive) + (old(budget) - budget) >= timeout
      // it does not wait if it need not or must not
      ensures nonblock || old(RxRing()) != [] || buffer.Length == 0 ==> waits == old(waits)
      ensures r == StillRunning ==> !nonblock && buffer.Length > 0 && got == 0 && budget == 0
      ensures r == StillRunning ==> RxRing() == [] && dev.re && hostInactive < timeout
      // with nothing more to come from interrupt level, the outcome is known beforehand
      ensures old(budget) == 0 ==>
                && got == Min(buffer.Length, |old(RxRing())|)
                && (r == StillRunning <==>
                      !nonblock && buffer.Length > 0 && old(RxRing()) == [] && old(hostInactive) < timeout)
    {
      hide Contents, Queued, Driver.TxRing, Device.Valid;
      var stuck;
      got, stuck := ReadSome(buffer, nonblock);
      if stuck {
        return StillRunning, got;
      }
      if got > 0 {
        Preempt(0);
        SetEnables(irqEnable.(re := true));
      }
      r := if got > 0 then Returned(got) else if nonblock then WouldBlock else IoError;
    }

    /** TIOCSTIMEOUT of `altera_avalon_jtag_uart_ioctl`; refused (-ENOTTY) when there is no timer. */
    method SetTimeout(arg: int) returns (ok: bool)
      requires Ready()
      modifies `timeout
      ensures Ready() && ok == (old(timeout) != INT_MAX) && (timeout == INT_MAX <==> !ok)
      ensures ok && 2 <= arg < INT_MAX ==> timeout == arg
      ensures ok && !(2 <= arg < INT_MAX) ==> timeout == INT_MAX - 1
    {
      ok := false;
      if timeout != INT_MAX {
        timeout := if arg >= 2 && arg < INT_MAX then arg else INT_MAX - 1;
        ok := true;
      }
    }

    /** TIOCGCONNECTED of `altera_avalon_jtag_uart_ioctl`: a timeout of INT_MAX - 1 never expires. */
    method GetConnected() returns (ok: bool, connected: bool)
      requires Ready()
      ensures ok == (timeout != INT_MAX)
      ensures ok ==> connected == (hostInactive < timeout)
      ensures ok && timeout == INT_MAX - 1 ==> connected
    {
      ok, connected := false, false;
      if timeout != INT_MAX {
        ok, connected := true, hostInactive < timeout;
      }
    }

    /** `altera_avalon_jtag_uart_close`: waits until the interrupt routine has emptied the transmit buffer. */
    method Close(nonblock: bool) returns (r: Outcome)
      requires Ready()
      modifies `rxIn, `txOut, `irqEnable, `hostInactive, `sightings, `budget, `waits, dev, rxBuf
      ensures Ready()
      ensures r == Returned(0) || r == WouldBlock || r == StillRunning
      ensures r == Returned(0) ==> TxRing() == [] || hostInactive >= timeout
      ensures old(TxRing()) == [] ==> r == Returned(0)
      ensures r == Returned(0) && timeout >= INT_MAX - 1 ==> dev.stored == accepted
      ensures r == WouldBlock ==> nonblock && hostInactive < timeout
      ensures r == StillRunning ==> !nonblock && budget == 0 && TxRing() != [] && dev.we && hostInactive < timeout
      ensures nonblock || old(TxRing()) == [] ==> waits == old(waits)
      // with nothing more to come from interrupt level, the outcome is known beforehand
      ensures old(budget) == 0 ==>
                r == if old(TxRing()) == [] || old(hostInactive) >= timeout then Returned(0)
                     else if nonblock then WouldBlock else StillRunning
    {
      hide Contents, Queued, Driver.RxRing, Driver.RxArmed, Device.Valid;
      while true
        invariant waits == old(waits) || !nonblock
        invariant old(TxRing()) == [] ==> waits == old(waits)
        invariant Ready() && Undisturbed() && (old(TxRing()) == [] ==> TxRing() == [])
        decreases budget
      {
        var last := budget == 0;
        Preempt(0);
        if txOut == txIn {
          return Returned(0);
        }
        Preempt(0);
        if hostInactive >= timeout {
          return Returned(0);
        }
        if nonblock {
          return WouldBlock;
        }
        if last {
          return StillRunning;
        }
        waits := waits + 1;
        if budget > 0 {
          Preempt(1);
        }
      }
    }

    /** One application call. What it reports is all that the application learns: `wrote` is the prefix of the data
        that a write said it took, `got` the part of the buffer that a read said it filled. */
    method Do(call: Call) returns (wrote: seq<byte>, got: seq<byte>, returned: bool)
      requires Ready()
      modifies this, dev, rxBuf, txBuf
      ensures Ready() && (alarmStarted == old(alarmStarted))
      ensures delivered == old(delivered) + got
      ensures old(accepted) + wrote <= accepted && (returned ==> accepted == old(accepted) + wrote)
      ensures (!returned ==> budget == 0) && (!call.CallWrite? ==> wrote == [])
      ensures timeout == (if !call.CallSetTimeout? || old(timeout) == INT_MAX then old(timeout)
                          else if 2 <= call.arg < INT_MAX then call.arg else INT_MAX - 1)
      ensures returned && call.CallClose? && !call.nonblock && timeout >= INT_MAX - 1 ==> dev.stored == accepted
      ensures returned && call.CallWrite? && !call.nonblock && !alarmStarted ==> wrote == call.data
      ensures returned && call.CallRead? && !call.nonblock && !alarmStarted && call.space > 0 ==> got != []
    {
      hide Contents, Queued, Driver.TxFree, Driver.TxArmed, Driver.RxArmed, Driver.RxRing, Driver.TxRing, Driver.Undisturbed, Device.Valid;
      wrote, got, returned := [], [], true;
      Preempt(0);
      match call
      case CallWrite(data, nonblock) =>
        var r, taken := Write(data, nonblock);
        returned := r != StillRunning;
        if r.Returned? {
          wrote := data[..r.count];
        }
      case CallRead(space, nonblock) =>
        var buffer := new byte[space];
        var r, n := Read(buffer, nonblock);
        returned := r != StillRunning;
        if r.Returned? {
          got := buffer[..r.count];
        }
      case CallClose(nonblock) =>
        var r := Close(nonblock);
        returned := r != StillRunning;
      case CallSetTimeout(arg) =>
        var ok := SetTimeout(arg);
    }

    /** Any run: any sequence of calls with any interrupts, timer callbacks and host actions between any two of their
        steps, up to the end of the event budget. Nothing is lost, duplicated or reordered in either direction. */
    method Run(calls: seq<Call>) returns (wrote: seq<byte>, got: seq<byte>, finished: bool)
      requires Ready()
      modifies this, dev, rxBuf, txBuf
      ensures Ready()
      ensures dev.fromHost == old(delivered) + got + RxRing() + dev.rxFifo
      ensures old(accepted) + wrote <= dev.toHost + dev.txFifo + TxRing()
      ensures finished ==> dev.toHost + dev.txFifo + TxRing() == old(accepted) + wrote
      ensures !finished ==> budget == 0
      ensures finished && !old(alarmStarted) && AllBlock(calls) ==> wrote == ToSend(calls)
    {
      hide Contents;
      wrote, got, finished := [], [], true;
      for i := 0 to |calls|
        invariant Ready()
        invariant delivered == old(delivered) + got
        invariant accepted == old(accepted) + wrote
        invariant alarmStarted == old(alarmStarted)
        invariant !alarmStarted && AllBlock(calls) ==> wrote == ToSend(calls[..i])
      {
        var w, g, returned := Do(calls[i]);
        assert old(accepted) + (wrote + w) == (old(accepted) + wrote) + w;
        assert old(delivered) + (got + g) == (old(delivered) + got) + g;
        wrote, got := wrote + w, got + g;
        ToSendUpTo(calls, i);
        if !returned {
          finished := false;
          return;
        }
      }
      assert calls[..|calls|] == calls;
    }
  }
}
