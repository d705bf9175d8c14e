/** The VGA timing generator: its registers, their closed form, and what a frame contains. */
module Vga {

  const HPIXELS := 799
  const VLINES := 524
  const WIDTH := 800    // pixel clocks in a line
  const HEIGHT := 525   // lines in a frame
  const FRAME := 420000

  type TenBits = x: int | 0 <= x < 1024

  /** The registers clocked by the pixel clock. */
  datatype Timing = Timing(hc: TenBits, vc: TenBits, hs: bool, vs: bool)

  const RESET := Timing(0, 0, false, false)

  predicate Display(t: Timing) { !(t.hc >= 640 || t.vc >= 480) }

  class Controller {
    var clkdiv: bool
    var hc: TenBits
    var vc: TenBits
    var hs: bool
    var vs: bool
    ghost var clocks: nat  // 50 MHz clock edges since reset

    function Registers(): Timing
      reads this
    {
      Timing(hc, vc, hs, vs)
    }

    ghost predicate Valid()
      reads this
    {
      clkdiv == (clocks % 2 == 1) && Registers() == At((clocks + 1) / 2)
    }

    constructor ()
      ensures Valid() && clocks == 0
    {
      clkdiv, hc, vc, hs, vs, clocks := false, 0, 0, false, false, 0;
      new;
      hide At;
      AtZero();
    }

    /** The asynchronous reset. */
    method Reset()
      modifies this
      ensures Valid() && clocks == 0
    {
      clkdiv, hc, vc, hs, vs, clocks := false, 0, 0, false, false, 0;
    }

    /** A rising edge of the 50 MHz clock: every second one is a rising edge of the pixel clock. */
    method Clock()
      requires Valid()
      modifies this
      ensures Valid() && clocks == old(clocks) + 1
    {
      hide At;
      AtNext((clocks + 1) / 2);
      clkdiv := !clkdiv;
      if clkdiv {
        PixelClock();
      }
      clocks := clocks + 1;
    }

    /** All registers take their next values from the values before the edge. */
    method PixelClock()
      modifies `hc, `vc, `hs, `vs
      ensures Registers() == After(old(Registers()))
    {
      hs, vs, hc, vc :=
        !(hc + 1 >= 656 && hc + 1 < 752),
        !(vc + 1 == 490 || vc + 1 == 491),
        if hc == HPIXELS then 0 else (hc + 1) % 1024,
        if hc == HPIXELS then if vc == VLINES then 0 else (vc + 1) % 1024 else vc;
    }
  }

  /** The registers after a pixel clock. */
  function After(t: Timing): Timing {
    Timing(if t.hc == HPIXELS then 0 else (t.hc + 1) % 1024,
           if t.hc != HPIXELS then t.vc else if t.vc == VLINES then 0 else (t.vc + 1) % 1024,
           !(656 <= t.hc + 1 < 752),
           !(490 <= t.vc + 1 <= 491))
  }

  /** The registers after `n` pixel clocks. */
  function At(n: nat): Timing { if n == 0 then RESET else After(At(n - 1)) }

  lemma AtZero()
    ensures At(0) == RESET
  {
  }

  lemma AtNext(n: nat)
    ensures At(n + 1) == After(At(n))
  {
  }

  // ---- the closed form

  function Column(n: nat): (c: TenBits)
    ensures c < WIDTH
  {
    n % WIDTH
  }

  function Row(n: nat): (r: TenBits)
    ensures r < HEIGHT
  {
    n / WIDTH % HEIGHT
  }

  lemma Origin()
    ensures Column(0) == 0 && Row(0) == 0
  {
  }

  lemma NextPixel(n: nat)
    ensures Column(n + 1) == if Column(n) == HPIXELS then 0 else Column(n) + 1
    ensures Row(n + 1) == if Column(n) != HPIXELS then Row(n) else if Row(n) == VLINES then 0 else Row(n) + 1
  {
    assert (n + 1) / WIDTH == if Column(n) == HPIXELS then n / WIDTH + 1 else n / WIDTH;
  }

  /**
   * The counters are the position in the frame; hs is low on columns 656 to 751; and vs, which is registered one pixel
   * late, is low from the second pixel of line 489 through the first of line 491.
   */
  lemma {:induction false} ClosedForm(n: nat)
    ensures At(n).hc == Column(n) && At(n).vc == Row(n)
    ensures n > 0 ==> (!At(n).hs <==> 656 <= Column(n) < 752)
    ensures n > 0 ==> (!At(n).vs <==> 489 <= Row(n - 1) <= 490)
  {
    hide Column, Row;
    Origin();
    if n > 0 {
      ClosedForm(n - 1);
      NextPixel(n - 1);
    }
  }

  /** So the pixel shown after `n` pixel clocks is number n mod 420000 of the frame, if it is in the window of 640 by 480. */
  lemma Position(n: nat)
    ensures At(n).hc == n % 800 && At(n).vc == n / 800 % 525
    ensures Display(At(n)) <==> n % 800 < 640 && n / 800 % 525 < 480
  {
    hide At;
    ClosedForm(n);
  }

  /** From the first pixel clock on, no sync pulse falls on a displayed pixel. At reset it does. */
  lemma SyncsAreBlanked(n: nat)
    ensures Display(At(n)) && (!At(n).hs || !At(n).vs) <==> n == 0
  {
    hide Column, Row, At;
    ClosedForm(n);
    if n > 0 {
      NextPixel(n - 1);
    } else {
      AtZero();
      Origin();
    }
  }

  // ---- counting

  /** How many of the `len` pixel clocks from the `a`-th on have `p`. */
  function Count(p: nat -> bool, a: nat, len: nat): nat {
    if len == 0 then 0 else Count(p, a, len - 1) + if p(a + len - 1) then 1 else 0
  }

  lemma {:induction false} CountConcat(p: nat -> bool, a: nat, m: nat, n: nat)
    ensures Count(p, a, m + n) == Count(p, a, m) + Count(p, a + m, n)
    decreases n
  {
    if n > 0 {
      CountConcat(p, a, m, n - 1);
    }
  }

  lemma {:induction false} CountConstant(p: nat -> bool, a: nat, len: nat, b: bool)
    requires forall n :: a <= n < a + len ==> p(n) == b
    ensures Count(p, a, len) == if b then len else 0
    decreases len
  {
    if len > 0 {
      CountConstant(p, a, len - 1, b);
    }
  }

  lemma {:induction false} CountShifted(p: nat -> bool, q: nat -> bool, a: nat, len: nat, shift: nat)
    requires shift <= a && forall n :: a <= n < a + len ==> p(n) == q(n - shift)
    ensures Count(p, a, len) == Count(q, a - shift, len)
    decreases len
  {
    if len > 0 {
      CountShifted(p, q, a, len - 1, shift);
    }
  }

  /** A property of period `len` holds equally often in every window of that length. */
  lemma {:induction false} CountWindow(p: nat -> bool, a: nat, len: nat)
    requires forall n: nat :: p(n + len) == p(n)
    ensures Count(p, a, len) == Count(p, 0, len)
  {
    hide Count;
    if a > 0 {
      CountWindow(p, a - 1, len);
      SlideWindow(p, a - 1, len);
    }
  }

  lemma SlideWindow(p: nat -> bool, a: nat, len: nat)
    requires p(a + len) == p(a)
    ensures Count(p, a + 1, len) == Count(p, a, len)
  {
    hide Count;
    CountConcat(p, a, 1, len);
    CountConcat(p, a, len, 1);
    CountOne(p, a);
    CountOne(p, a + len);
  }

  lemma CountOne(p: nat -> bool, a: nat)
    ensures Count(p, a, 1) == if p(a) then 1 else 0
  {
    assert Count(p, a, 0) == 0;
  }

  /** Columns `from` to `to` of the rows `top` to `bottom`, the upper bounds excluded. */
  predicate InBox(n: nat, from: nat, to: nat, top: nat, bottom: nat) {
    from <= Column(n) < to && top <= Row(n) < bottom
  }

  function Box(from: nat, to: nat, top: nat, bottom: nat): nat -> bool { (n: nat) => InBox(n, from, to, top, bottom) }

  lemma {:induction false} CountLines(lines: nat, from: nat, to: nat, top: nat, bottom: nat)
    requires from <= to <= WIDTH && top <= bottom && lines <= HEIGHT
    ensures Count(Box(from, to, top, bottom), 0, WIDTH * lines) ==
            (to - from) * (if lines <= top then 0 else if lines <= bottom then lines - top else bottom - top)
    decreases lines
  {
    hide Count;
    var p := Box(from, to, top, bottom);
    if lines == 0 {
      CountConstant(p, 0, 0, false);
    } else {
      CountLines(lines - 1, from, to, top, bottom);
      CountConcat(p, 0, WIDTH * (lines - 1), WIDTH);
      CountLine(lines - 1, from, to, top, bottom);
    }
  }

  lemma CountLine(y: nat, from: nat, to: nat, top: nat, bottom: nat)
    requires from <= to <= WIDTH && y < HEIGHT
    ensures Count(Box(from, to, top, bottom), WIDTH * y, WIDTH) == if top <= y < bottom then to - from else 0
  {
    hide Count;
    var p, a := Box(from, to, top, bottom), WIDTH * y;
    forall n | a <= n < a + WIDTH
      ensures p(n) == (from <= n - a < to && top <= y < bottom)
    {
      OnLine(n, y);
    }
    CountConcat(p, a, from, WIDTH - from);
    CountConcat(p, a + from, to - from, WIDTH - to);
    CountConstant(p, a, from, false);
    CountConstant(p, a + from, to - from, top <= y < bottom);
    CountConstant(p, a + to, WIDTH - to, false);
  }

  lemma OnLine(n: nat, y: nat)
    requires WIDTH * y <= n < WIDTH * (y + 1) && y < HEIGHT
    ensures Column(n) == n - WIDTH * y && Row(n) == y
  {
    assert n / WIDTH == y;
  }

  lemma NextFrame(n: nat)
    ensures Column(n + FRAME) == Column(n) && Row(n + FRAME) == Row(n)
  {
    assert (n + FRAME) / WIDTH == n / WIDTH + HEIGHT;
  }

  lemma CountBox(a: nat, from: nat, to: nat, top: nat, bottom: nat)
    requires from <= to <= WIDTH && top <= bottom <= HEIGHT
    ensures Count(Box(from, to, top, bottom), a, FRAME) == (to - from) * (bottom - top)
  {
    hide Count, Column, Row;
    var p := Box(from, to, top, bottom);
    forall n: nat
      ensures p(n + FRAME) == p(n)
    {
      NextFrame(n);
    }
    CountWindow(p, a, FRAME);
    CountLines(HEIGHT, from, to, top, bottom);
  }

  function Displayed(): nat -> bool { (n: nat) => Display(At(n)) }
  function HsLow(): nat -> bool { (n: nat) => !At(n).hs }
  function VsLow(): nat -> bool { (n: nat) => !At(n).vs }

  /** Any 420000 consecutive pixel clocks after the first show 640 * 480 pixels, and hold each sync low for exactly its
      share: 96 clocks of each of 525 lines, and two lines. */
  lemma FrameContents(a: nat)
    requires a >= 1
    ensures Count(Displayed(), a, FRAME) == 307200
    ensures Count(HsLow(), a, FRAME) == 50400
    ensures Count(VsLow(), a, FRAME) == 1600
  {
    hide Count, Column, Row, At, Displayed, HsLow, VsLow;
    FrameDisplays(a);
    FrameHs(a);
    FrameVs(a);
  }

  lemma PixelKinds(n: nat)
    requires n >= 1
    ensures Displayed()(n) == Box(0, 640, 0, 480)(n)
    ensures HsLow()(n) == Box(656, 752, 0, HEIGHT)(n)
    ensures VsLow()(n) == Box(0, WIDTH, 489, 491)(n - 1)
  {
    hide At;
    ClosedForm(n);
  }

  lemma FrameDisplays(a: nat)
    requires a >= 1
    ensures Count(Displayed(), a, FRAME) == 307200
  {
    hide Count, Displayed, HsLow, VsLow, Box;
    forall n | a <= n < a + FRAME
      ensures Displayed()(n) == Box(0, 640, 0, 480)(n)
    {
      PixelKinds(n);
    }
    CountShifted(Displayed(), Box(0, 640, 0, 480), a, FRAME, 0);
    CountBox(a, 0, 640, 0, 480);
  }

  lemma FrameHs(a: nat)
    requires a >= 1
    ensures Count(HsLow(), a, FRAME) == 50400
  {
    hide Count, Displayed, HsLow, VsLow, Box;
    forall n | a <= n < a + FRAME
      ensures HsLow()(n) == Box(656, 752, 0, HEIGHT)(n)
    {
      PixelKinds(n);
    }
    CountShifted(HsLow(), Box(656, 752, 0, HEIGHT), a, FRAME, 0);
    CountBox(a, 656, 752, 0, HEIGHT);
  }

  lemma FrameVs(a: nat)
    requires a >= 1
    ensures Count(VsLow(), a, FRAME) == 1600
  {
    hide Count, Displayed, HsLow, VsLow, Box;
    forall n | a <= n < a + FRAME
      ensures VsLow()(n) == Box(0, WIDTH, 489, 491)(n - 1)
    {
      PixelKinds(n);
    }
    CountShifted(VsLow(), Box(0, WIDTH, 489, 491), a, FRAME, 1);
    CountBox(a - 1, 0, WIDTH, 489, 491);
  }
}
