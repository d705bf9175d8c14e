/** The JTAG UART core as its registers show it, with the host at the other end of the two FIFOs.
    The host may push, pull and raise or drop the two interrupt lines whenever their conditions allow. */
module UartDevice {

  type byte = x: int | 0 <= x < 256

  /** A value of the CONTROL register. */
  datatype Control = Control(ri: bool, wi: bool, ac: bool, wspace: nat)

  /** A value of the DATA register: RVALID, DATA and RAVAIL. */
  datatype Data = Data(valid: bool, value: byte, avail: nat)

  class Device {
    const rxDepth: nat
    const txDepth: nat

    var re: bool
    var we: bool
    var ri: bool
    var wi: bool
    var ac: bool
    var rxFifo: seq<byte>
    var txFifo: seq<byte>

    // What has passed each end of the two FIFOs so far.
    ghost var fromHost: seq<byte>
    ghost var popped: seq<byte>
    ghost var stored: seq<byte>
    ghost var toHost: seq<byte>

    ghost predicate Valid()
      reads this
    {
      && fromHost == popped + rxFifo
      && stored == toHost + txFifo
      && |rxFifo| <= rxDepth
      && |txFifo| <= txDepth
      && (ri ==> re && rxFifo != [])
      && (wi ==> we && |txFifo| < txDepth)
    }

    constructor (rxDepth: nat, txDepth: nat)
      ensures Valid() && this.rxDepth == rxDepth && this.txDepth == txDepth
      ensures fromHost == popped == stored == toHost == []
      ensures !re && !we
    {
      this.rxDepth, this.txDepth := rxDepth, txDepth;
      re, we, ri, wi, ac := false, false, false, false, false;
      rxFifo, txFifo := [], [];
      fromHost, popped, stored, toHost := [], [], [], [];
    }

    /** IORD of the CONTROL register; reading it changes nothing. */
    method ReadControl() returns (c: Control)
      requires Valid()
      ensures c == Control(ri, wi, ac, txDepth - |txFifo|)
    {
      c := Control(ri, wi, ac, txDepth - |txFifo|);
    }

    /** IOWR of the CONTROL register: RE and WE are taken from the word written, AC is cleared by writing one. */
    method WriteControl(newRe: bool, newWe: bool, clearAc: bool)
      requires Valid()
      modifies `re, `we, `ri, `wi, `ac
      ensures Valid() && re == newRe && we == newWe && ac == (old(ac) && !clearAc)
    {
      re, we, ac := newRe, newWe, ac && !clearAc;
      SettleLines();
    }

    /** IORD of the DATA register: pops one byte if there is one; RVALID = 0 implies RAVAIL = 0. */
    method ReadData() returns (d: Data)
      requires Valid()
      modifies `rxFifo, `popped, `ri
      ensures Valid()
      ensures d.valid <==> old(rxFifo) != []
      ensures d.avail == |rxFifo|
      ensures d.valid ==> rxFifo == old(rxFifo)[1..] && d.value == old(rxFifo)[0] && popped == old(popped) + [d.value]
      ensures !d.valid ==> rxFifo == [] && popped == old(popped)
    {
      if rxFifo == [] {
        d := Data(false, 0, 0);
      } else {
        d := Data(true, rxFifo[0], |rxFifo| - 1);
        popped := popped + [rxFifo[0]];
        rxFifo := rxFifo[1..];
        ri := ri && rxFifo != [];
      }
    }

    /** IOWR of the DATA register. The core drops a byte stored into a full FIFO. */
    method WriteData(b: byte)
      requires Valid()
      modifies `txFifo, `stored, `wi
      ensures Valid()
      ensures if |old(txFifo)| < txDepth then txFifo == old(txFifo) + [b] && stored == old(stored) + [b]
              else txFifo == old(txFifo) && stored == old(stored)
    {
      if |txFifo| < txDepth {
        txFifo := txFifo + [b];
        stored := stored + [b];
        wi := wi && |txFifo| < txDepth;
      }
    }

    /** The core raises or drops an interrupt line; it may be up only while its condition holds. */
    method SettleLines()
      requires fromHost == popped + rxFifo && stored == toHost + txFifo
      requires |rxFifo| <= rxDepth && |txFifo| <= txDepth
      modifies `ri, `wi
      ensures Valid()
    {
      if * {
        ri := re && rxFifo != [];
      } else {
        ri := false;
      }
      if * {
        wi := we && |txFifo| < txDepth;
      } else {
        wi := false;
      }
    }

    /** Any number of host actions: bytes pushed into the receive FIFO while it has room, bytes pulled from the
        transmit FIFO, and the AC bit that shows that the host is there. */
    method HostRun()
      requires Valid()
      modifies `rxFifo, `txFifo, `fromHost, `toHost, `ri, `wi, `ac
      ensures Valid()
      ensures old(rxFifo) <= rxFifo && |txFifo| <= |old(txFifo)|
      ensures old(fromHost) <= fromHost && old(toHost) <= toHost
    {
      var actions: nat := *;
      while actions > 0
        invariant Valid()
        invariant old(rxFifo) <= rxFifo && |txFifo| <= |old(txFifo)|
        invariant old(fromHost) <= fromHost && old(toHost) <= toHost
      {
        if {
          case |rxFifo| < rxDepth =>
            var b: byte := *;
            rxFifo, fromHost := rxFifo + [b], fromHost + [b];
          case |txFifo| > 0 =>
            toHost, txFifo := toHost + [txFifo[0]], txFifo[1..];
          case true =>
            ac := true;
        }
        SettleLines();
        actions := actions - 1;
      }
    }
  }
}
