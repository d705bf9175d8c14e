/**
 * Interrupt nesting: what the control registers hold while interruptible handlers preempt one another. A step is the
 * processor taking an interrupt, the dispatch loop choosing a line, a handler opening or closing itself to preemption,
 * a return, or an enable or disable of a line.
 */
module Nesting {
  import opened Words

  /** alt_irq_active, IENABLE, alt_priority_mask and status.PIE. */
  datatype Regs = Regs(active: bv32, ienable: bv32, mask: bv32, pie: bool)

  const BOOT := Regs(0, 0, ALL, true)

  function Gate(active: bv32, mask: bv32): bv32 { active & mask }

  /** What IPENDING reads while the devices request `request`. */
  function Pending(request: bv32, ienable: bv32): bv32 { request & ienable }

  /** `alt_irq_interruptible(priority)`, which also returns the mask it replaces. */
  function Interruptible(r: Regs, priority: Line): Regs {
    Regs(r.active, Gate(r.active, Below(priority)), Below(priority), true)
  }

  /** `alt_irq_non_interruptible(mask)` */
  function NonInterruptible(r: Regs, mask: bv32): Regs {
    Regs(r.active, Gate(r.active, mask), mask, false)
  }

  /** `alt_irq_enable` and `alt_irq_disable` write the whole of alt_irq_active to IENABLE, whatever the mask. */
  function WithActive(r: Regs, active: bv32): Regs {
    r.(active := active, ienable := active)
  }

  /** What one invocation of alt_irq_handler is doing. */
  datatype Phase =
    | Choosing
    | Serving(line: Line)               // the handler runs with interrupts off
    | Preemptible(line: Line, saved: bv32)  // between interruptible and non_interruptible

  /** The invocations in progress, the innermost outside; `resume` is the PIE bit that its return restores. */
  datatype Stack = Foreground | Frame(below: Stack, resume: bool, phase: Phase) {
    predicate Preemptible() { Frame? && phase.Preemptible? }
  }

  datatype State = State(regs: Regs, stack: Stack)

  datatype Op =
    | Interrupt(request: bv32)
    | Serve(line: Line, request: bv32)
    | AllowPreemption
    | ForbidPreemption
    | HandlerReturns
    | Exit(request: bv32)
    | EnableLine(id: Line)
    | DisableLine(id: Line)

  ghost predicate Allowed(s: State, op: Op) {
    match op
    case Interrupt(request) => s.regs.pie && Pending(request, s.regs.ienable) != 0
    case Serve(line, request) => Top(s.stack, Choosing) && IsLowest(Pending(request, s.regs.ienable), line)
    case AllowPreemption => s.stack.Frame? && s.stack.phase.Serving?
    case ForbidPreemption => s.stack.Frame? && s.stack.phase.Preemptible?
    case HandlerReturns => s.stack.Frame? && s.stack.phase.Serving?
    case Exit(request) => Top(s.stack, Choosing) && Pending(request, s.regs.ienable) == 0
    case EnableLine(id) => Within(With(s.regs.active, id), s.regs.mask)
    case DisableLine(id) => Within(Without(s.regs.active, id), s.regs.mask)
  }

  predicate Top(stack: Stack, phase: Phase) { stack.Frame? && stack.phase == phase }

  /** No line of `w` is masked: always so outside nested sections, where the mask is ALL. */
  predicate Within(w: bv32, mask: bv32) { w & !mask == 0 }

  function Step(s: State, op: Op): State
    requires Allowed(s, op)
  {
    match op
    case Interrupt(_) => State(s.regs.(pie := false), Frame(s.stack, s.regs.pie, Choosing))
    case Serve(line, _) => s.(stack := s.stack.(phase := Serving(line)))
    case AllowPreemption =>
      var line := s.stack.phase.line;
      State(Interruptible(s.regs, line), s.stack.(phase := Preemptible(line, s.regs.mask)))
    case ForbidPreemption =>
      State(NonInterruptible(s.regs, s.stack.phase.saved), s.stack.(phase := Serving(s.stack.phase.line)))
    case HandlerReturns => s.(stack := s.stack.(phase := Choosing))
    case Exit(_) => State(s.regs.(pie := s.stack.resume), s.stack.below)
    case EnableLine(id) => s.(regs := WithActive(s.regs, With(s.regs.active, id)))
    case DisableLine(id) => s.(regs := WithActive(s.regs, Without(s.regs.active, id)))
  }

  /** Every operation of the run is possible where it happens. */
  ghost predicate Possible(s: State, ops: seq<Op>)
    decreases |ops|
  {
    ops == [] || (Allowed(s, ops[0]) && Possible(Step(s, ops[0]), ops[1..]))
  }

  ghost function Run(s: State, ops: seq<Op>): State
    requires Possible(s, ops)
    decreases |ops|
  {
    if ops == [] then s else Run(Step(s, ops[0]), ops[1..])
  }

  // ---- the invariant: the registers are a function of alt_irq_active and of the stack

  function MaskOf(stack: Stack): bv32 {
    match stack
    case Foreground => ALL
    case Frame(below, _, Preemptible(line, _)) => Below(line)
    case Frame(below, _, _) => MaskOf(below)
  }

  predicate OpenToPreemption(stack: Stack) { stack.Foreground? || stack.phase.Preemptible? }

  ghost predicate Nested(stack: Stack) {
    match stack
    case Foreground => true
    case Frame(below, resume, phase) =>
      && Nested(below) && OpenToPreemption(below) && resume && MaskOf(below) != 0
      && match phase
         case Choosing => true
         case Serving(line) => Bit(MaskOf(below), line)
         case Preemptible(line, saved) => saved == MaskOf(below) && Bit(saved, line)
  }

  ghost predicate Inv(s: State) {
    && Nested(s.stack)
    && s.regs.mask == MaskOf(s.stack)
    && s.regs.ienable == Gate(s.regs.active, s.regs.mask)
    && s.regs.pie == OpenToPreemption(s.stack)
  }

  lemma BootInv()
    ensures Inv(State(BOOT, Foreground))
  {
  }

  lemma GateBit(request: bv32, active: bv32, mask: bv32, line: Line)
    requires IsLowest(Pending(request, Gate(active, mask)), line)
    ensures Bit(mask, line) && Bit(active, line)
  {
    AndBit(request, active & mask, line);
    AndBit(active, mask, line);
  }

  lemma GateNonZero(request: bv32, active: bv32, mask: bv32)
    requires Pending(request, Gate(active, mask)) != 0
    ensures mask != 0
  {
  }

  /** Writing alt_irq_active to IENABLE respects the priority mask exactly when no active line is masked. */
  lemma WriteActiveIsSafe(active: bv32, mask: bv32)
    ensures active == Gate(active, mask) <==> Within(active, mask)
  {
  }

  lemma StepKeeps(s: State, op: Op)
    requires Inv(s) && Allowed(s, op)
    ensures Inv(Step(s, op))
  {
    hide Bit, Gate, Pending, Within, IsLowest, Below, With, Without;
    match op
    case Interrupt(request) => GateNonZero(request, s.regs.active, s.regs.mask);
    case Serve(line, request) => GateBit(request, s.regs.active, s.regs.mask, line);
    case EnableLine(id) => WriteActiveIsSafe(With(s.regs.active, id), s.regs.mask);
    case DisableLine(id) => WriteActiveIsSafe(Without(s.regs.active, id), s.regs.mask);
    case _ =>
  }

  lemma {:induction false} RunKeeps(s: State, ops: seq<Op>)
    requires Inv(s) && Possible(s, ops)
    ensures Inv(Run(s, ops))
    decreases |ops|
  {
    hide Inv, Allowed, Step;
    if ops != [] {
      StepKeeps(s, ops[0]);
      RunKeeps(Step(s, ops[0]), ops[1..]);
    }
  }

  // ---- depth and order

  function Depth(stack: Stack): nat {
    if stack.Foreground? then 0 else 1 + Depth(stack.below)
  }

  /** The lines of the handlers in progress, the innermost first. */
  function Lines(stack: Stack): seq<Line> {
    match stack
    case Foreground => []
    case Frame(below, _, Choosing) => Lines(below)
    case Frame(below, _, phase) => [phase.line] + Lines(below)
  }

  ghost predicate Increasing(lines: seq<Line>) {
    forall i, j :: 0 <= i < j < |lines| ==> lines[i] < lines[j]
  }

  /** A handler is only ever preempted by lines of strictly smaller number, and the mask admits no others. */
  lemma {:induction false} Preemption(stack: Stack)
    requires Nested(stack)
    ensures Increasing(Lines(stack))
    ensures stack.Frame? && stack.phase.Preemptible? ==> Lines(stack) != [] && MaskOf(stack) == Below(Lines(stack)[0])
  {
    hide Bit, Below;
    if stack.Frame? {
      Preemption(stack.below);
      if !stack.phase.Choosing? && stack.below.Frame? {
        BelowBit(Lines(stack.below)[0], stack.phase.line);
      }
    }
  }

  lemma {:induction false} DepthAndLine(stack: Stack)
    requires Nested(stack)
    ensures stack.Frame? && !stack.phase.Choosing? ==> Depth(stack) + stack.phase.line as int <= 32
    ensures Depth(stack) <= 32
  {
    hide Bit, Below, Nested;
    if stack.Frame? {
      Unfold(stack);
      DepthAndLine(stack.below);
      if stack.below.Frame? {
        BelowNonZero(stack.below.phase.line);
        if !stack.phase.Choosing? {
          BelowBit(stack.below.phase.line, stack.phase.line);
        }
      }
    }
  }

  lemma Unfold(stack: Stack)
    requires Nested(stack) && stack.Frame?
    ensures Nested(stack.below) && OpenToPreemption(stack.below) && MaskOf(stack.below) != 0
    ensures !stack.phase.Choosing? ==> Bit(MaskOf(stack.below), stack.phase.line)
  {
  }

  /** From boot, in every run: at most 32 invocations at once, each of higher priority than the ones it preempted. */
  lemma NestingIsBounded(ops: seq<Op>)
    requires Possible(State(BOOT, Foreground), ops)
    ensures Depth(Run(State(BOOT, Foreground), ops).stack) <= 32
    ensures Increasing(Lines(Run(State(BOOT, Foreground), ops).stack))
  {
    BootInv();
    RunKeeps(State(BOOT, Foreground), ops);
    DepthAndLine(Run(State(BOOT, Foreground), ops).stack);
    Preemption(Run(State(BOOT, Foreground), ops).stack);
  }

  // ---- enabling and disabling inside nested sections

  /** `s` after alt_irq_enable or alt_irq_disable made `active` of alt_irq_active, at whatever point. */
  function Rewritten(s: State, active: bv32): State { s.(regs := WithActive(s.regs, active)) }

  /** No run from `s` lets a line preempt one of the same or of higher priority. */
  ghost predicate KeepsOrder(s: State) {
    forall ops :: Possible(s, ops) ==> Increasing(Lines(Run(s, ops).stack))
  }

  /**
   * An enable or disable leaves the priorities in force, over all runs that follow, exactly when no line that is active
   * afterwards is masked at the time. So `Allowed` asks of it no more than needed.
   */
  lemma EnableKeepsOrder(s: State, active: bv32)
    requires Inv(s)
    ensures KeepsOrder(Rewritten(s, active)) <==> Within(active, s.regs.mask)
  {
    hide Within, Run, Possible, Nested, Gate, Lines;
    var s' := Rewritten(s, active);
    WriteActiveIsSafe(active, s.regs.mask);
    if Within(active, s.regs.mask) {
      forall ops | Possible(s', ops)
        ensures Increasing(Lines(Run(s', ops).stack))
      {
        RunKeeps(s', ops);
        Preemption(Run(s', ops).stack);
      }
    } else {
      var ops := MaskedLineServed(s, active);
      assert Possible(s', ops) && !Increasing(Lines(Run(s', ops).stack));
    }
  }

  lemma MaskedLineServed(s: State, active: bv32) returns (ops: seq<Op>)
    requires Inv(s) && !Within(active, s.regs.mask)
    ensures Possible(Rewritten(s, active), ops)
    ensures !Increasing(Lines(Run(Rewritten(s, active), ops).stack))
  {
    hide Within, Bit, Mask, Pending, Gate, IsLowest, Below, Inv, Lines, Increasing, Run, Possible;
    UnfoldInv(s);
    var j := MaskedLine(active, s.regs.mask);
    MaskOfForeground(j);
    if s.stack.Preemptible() {
      ops := ServeNow(Rewritten(s, active), j);
    } else {
      ops := ServeNext(Rewritten(s, active), j);
    }
  }

  /** The line interrupts a handler that is open to preemption. */
  lemma ServeNow(s: State, j: Line) returns (ops: seq<Op>)
    requires s.stack.Preemptible() && s.regs.pie && Bit(s.regs.ienable, j) && !Bit(Below(s.stack.phase.line), j)
    ensures Possible(s, ops) && !Increasing(Lines(Run(s, ops).stack))
  {
    hide Bit, Mask, Pending, IsLowest, Below, Lines, Increasing, Run, Possible;
    OnlyRequest(j, s.regs.ienable);
    NotAbove(s.stack.phase.line, j);
    ops := [Interrupt(Mask(j)), Serve(j, Mask(j))];
    RunTwo(s, ops[0], ops[1]);
    NotIncreasing(Run(s, ops).stack, j, s.stack);
  }

  /** The dispatch loop takes the line, after the present handler if there is one. */
  lemma ServeNext(s: State, j: Line) returns (ops: seq<Op>)
    requires s.stack.Frame? && !s.stack.phase.Preemptible? && s.stack.below.Preemptible()
    requires Bit(s.regs.ienable, j) && !Bit(Below(s.stack.below.phase.line), j)
    ensures Possible(s, ops) && !Increasing(Lines(Run(s, ops).stack))
  {
    hide Bit, Mask, Pending, IsLowest, Below, Lines, Increasing, Run, Possible;
    OnlyRequest(j, s.regs.ienable);
    NotAbove(s.stack.below.phase.line, j);
    var serve := Serve(j, Mask(j));
    if s.stack.phase.Serving? {
      ops := [HandlerReturns, serve];
      RunTwo(s, HandlerReturns, serve);
    } else {
      ops := [serve];
      RunOne(s, serve);
    }
    NotIncreasing(Run(s, ops).stack, j, s.stack.below);
  }

  lemma UnfoldInv(s: State)
    requires Inv(s)
    ensures s.regs.mask == MaskOf(s.stack) && s.regs.pie == OpenToPreemption(s.stack)
    ensures s.stack.Frame? ==> OpenToPreemption(s.stack.below)
  {
  }

  lemma MaskedLine(active: bv32, mask: bv32) returns (j: Line)
    requires !Within(active, mask)
    ensures Bit(active, j) && !Bit(mask, j)
  {
    j := SomeBit(active & !mask);
    AndBit(active, !mask, j);
    NotBit(mask, j);
  }

  lemma NotBit(mask: bv32, j: Line)
    ensures Bit(!mask, j) <==> !Bit(mask, j)
  {
  }

  lemma NotAbove(line: Line, j: Line)
    requires !Bit(Below(line), j)
    ensures line <= j
  {
    BelowBit(line, j);
  }

  lemma MaskOfForeground(j: Line)
    ensures Bit(MaskOf(Foreground), j)
  {
  }

  lemma OnlyRequest(j: Line, ienable: bv32)
    requires Bit(ienable, j)
    ensures Pending(Mask(j), ienable) == Mask(j) && Mask(j) != 0 && IsLowest(Mask(j), j)
  {
  }

  lemma RunOne(s: State, a: Op)
    requires Allowed(s, a)
    ensures Possible(s, [a]) && Run(s, [a]) == Step(s, a)
  {
    hide Allowed, Step;
    assert [a][1..] == [];
    assert Possible(Step(s, a), []) && Run(Step(s, a), []) == Step(s, a);
  }

  lemma RunTwo(s: State, a: Op, b: Op)
    requires Allowed(s, a) && Allowed(Step(s, a), b)
    ensures Possible(s, [a, b]) && Run(s, [a, b]) == Step(Step(s, a), b)
  {
    hide Allowed, Step;
    assert [a, b][1..] == [b];
    RunOne(Step(s, a), b);
  }

  lemma NotIncreasing(stack: Stack, j: Line, below: Stack)
    requires below.Frame? && below.phase.Preemptible? && below.phase.line <= j
    requires stack.Frame? && stack.below == below && stack.phase == Serving(j)
    ensures !Increasing(Lines(stack))
  {
    assert Lines(below) == [below.phase.line] + Lines(below.below);
    assert Lines(stack) == [j] + Lines(below);
    assert Lines(stack)[0] == j && Lines(stack)[1] == below.phase.line;
  }

  /** Such a run, from boot: the handler of line 1 opens itself to preemption and enables line 2, which then preempts
      it. */
  lemma LowerPriorityPreempts()
    ensures var ops := [EnableLine(1), Interrupt(2), Serve(1, 2), AllowPreemption];
            && Possible(State(BOOT, Foreground), ops)
            && var s := Run(State(BOOT, Foreground), ops);
               var s' := Rewritten(s, With(s.regs.active, 2));
               var more := [Interrupt(4), Serve(2, 4)];
               Possible(s', more) && Lines(Run(s', more).stack) == [2, 1]
  {
    hide Bit, Gate, Below, Within, IsLowest, Possible, Run, Pending, With;
    LowerPriorityWords();
    var s0 := State(BOOT, Foreground);
    var s2 := State(Regs(2, 2, ALL, false), Frame(Foreground, true, Choosing));
    var s4 := State(Regs(2, 0, 1, true), Frame(Foreground, true, Preemptible(1, ALL)));
    RunTwo(s0, EnableLine(1), Interrupt(2));
    RunTwo(s2, Serve(1, 2), AllowPreemption);
    RunFour(s0, EnableLine(1), Interrupt(2), Serve(1, 2), AllowPreemption);
    RunTwo(Rewritten(s4, 6), Interrupt(4), Serve(2, 4));
  }

  lemma LowerPriorityWords()
    ensures With(0, 1) == 2 && Within(2, ALL) && Pending(2, 2) == 2 && IsLowest(2, 1) && Below(1) == 1 && Gate(2, 1) == 0
    ensures With(2, 2) == 6 && Pending(4, 6) == 4 && IsLowest(4, 2)
  {
  }

  lemma RunFour(s: State, a: Op, b: Op, c: Op, d: Op)
    requires Allowed(s, a) && Allowed(Step(s, a), b)
    requires Allowed(Step(Step(s, a), b), c) && Allowed(Step(Step(Step(s, a), b), c), d)
    ensures Possible(s, [a, b, c, d]) && Run(s, [a, b, c, d]) == Step(Step(Step(Step(s, a), b), c), d)
  {
    hide Allowed, Step;
    assert [a, b, c, d][1..] == [b, c, d] && [b, c, d][1..] == [c, d];
    RunTwo(Step(Step(s, a), b), c, d);
  }

  // ---- which lines are taken

  /** While interrupts are on, the processor takes a request exactly of a line that is active and not masked. */
  lemma TakenIf(s: State, j: Line)
    requires Inv(s)
    ensures Allowed(s, Interrupt(Mask(j))) <==>
            OpenToPreemption(s.stack) && Bit(s.regs.active, j) && (s.stack.Frame? ==> j < s.stack.phase.line)
  {
    hide Bit, Mask, Gate, Pending, Below;
    RequestTaken(j, s.regs.ienable);
    GateBits(s.regs.active, s.regs.mask, j);
    MaskOfForeground(j);
    if s.stack.Preemptible() {
      BelowBit(s.stack.phase.line, j);
    }
  }

  lemma RequestTaken(j: Line, ienable: bv32)
    ensures Pending(Mask(j), ienable) != 0 <==> Bit(ienable, j)
  {
  }

  lemma GateBits(active: bv32, mask: bv32, j: Line)
    ensures Bit(Gate(active, mask), j) <==> Bit(active, j) && Bit(mask, j)
  {
    AndBit(active, mask, j);
  }

  lemma PendingBits(request: bv32, ienable: bv32, j: Line)
    ensures Bit(Pending(request, ienable), j) <==> Bit(request, j) && Bit(ienable, j)
  {
    AndBit(request, ienable, j);
  }

  /** The dispatch loop serves the lowest-numbered line that is requested, active and not masked. */
  lemma ServedIf(s: State, line: Line, request: bv32)
    requires Inv(s) && Top(s.stack, Choosing)
    ensures Allowed(s, Serve(line, request)) <==>
            && Wanted(s, line, request)
            && forall j: Line :: Wanted(s, j, request) ==> line <= j
  {
    hide Bit, Gate, Pending, IsLowest, Nested;
    var pending := Pending(request, s.regs.ienable);
    forall j: Line
      ensures Bit(pending, j) <==> Wanted(s, j, request)
    {
      PendingBits(request, s.regs.ienable, j);
      GateBits(s.regs.active, s.regs.mask, j);
    }
    LowestIff(pending, line);
  }

  /** It ends exactly when no line is. */
  lemma ExitsIf(s: State, request: bv32)
    requires Inv(s) && Top(s.stack, Choosing)
    ensures Allowed(s, Exit(request)) <==> forall j: Line :: !Wanted(s, j, request)
  {
    hide Bit, Gate, Pending, IsLowest, Nested;
    var pending := Pending(request, s.regs.ienable);
    forall j: Line
      ensures Bit(pending, j) <==> Wanted(s, j, request)
    {
      PendingBits(request, s.regs.ienable, j);
      GateBits(s.regs.active, s.regs.mask, j);
    }
    ScanNeedsPending(pending);
  }

  predicate Wanted(s: State, j: Line, request: bv32) {
    Bit(request, j) && Bit(s.regs.active, j) && Bit(s.regs.mask, j)
  }

  lemma LowestIff(w: bv32, i: Line)
    ensures IsLowest(w, i) <==> Bit(w, i) && forall j: Line :: Bit(w, j) ==> i <= j
  {
    hide Bit, IsLowest;
    if IsLowest(w, i) {
      LowestBit(w, i);
      forall j: Line | Bit(w, j)
        ensures i <= j
      {
        LowestIsLowest(w, i, j);
      }
    } else if Bit(w, i) {
      var j := LowerBit(w, i);
      assert Bit(w, j) && j < i;
    }
  }

  lemma LowestBit(w: bv32, i: Line)
    requires IsLowest(w, i)
    ensures Bit(w, i)
  {
  }

  lemma LowerBit(w: bv32, i: Line) returns (j: Line)
    requires Bit(w, i) && !IsLowest(w, i)
    ensures Bit(w, j) && j < i
  {
    j := SomeBit(w & Below(i));
    AndBit(w, Below(i), j);
    BelowBit(i, j);
  }

  /** An enabled line is active and enabled at once, a disabled one neither; the others stay as they were. */
  lemma LinesSwitched(s: State, id: Line, j: Line)
    requires Inv(s)
    ensures Allowed(s, EnableLine(id)) ==>
              var r := Step(s, EnableLine(id)).regs; r.ienable == r.active && (Bit(r.active, j) <==> Bit(s.regs.active, j) || j == id)
    ensures Allowed(s, DisableLine(id)) ==>
              var r := Step(s, DisableLine(id)).regs; r.ienable == r.active && (Bit(r.active, j) <==> Bit(s.regs.active, j) && j != id)
  {
    hide Bit, With, Without, Within, Nested;
    WithBit(s.regs.active, id, j);
    WithoutBit(s.regs.active, id, j);
  }

  ghost predicate Enables(ops: seq<Op>, id: Line) { exists i :: 0 <= i < |ops| && ops[i] == EnableLine(id) }

  /** A line that is not active is neither taken nor served until it is enabled again, in any run. */
  lemma {:induction false} StaysDisabled(s: State, ops: seq<Op>, id: Line)
    requires Inv(s) && !Bit(s.regs.active, id) && Possible(s, ops) && !Enables(ops, id)
    ensures !Bit(Run(s, ops).regs.active, id)
    ensures forall i, request :: 0 <= i < |ops| ==> ops[i] != Serve(id, request)
    decreases |ops|
  {
    hide Bit, With, Without, Within, Inv, Gate, Pending, IsLowest;
    if ops != [] {
      InactiveStays(s, ops[0], id);
      StepKeeps(s, ops[0]);
      assert forall i :: 0 <= i < |ops| - 1 ==> ops[1..][i] == ops[i + 1];
      StaysDisabled(Step(s, ops[0]), ops[1..], id);
      forall i, request | 0 <= i < |ops|
        ensures ops[i] != Serve(id, request)
      {
        if i > 0 {
          assert ops[1..][i - 1] == ops[i];
        }
      }
    }
  }

  lemma InactiveStays(s: State, op: Op, id: Line)
    requires Inv(s) && !Bit(s.regs.active, id) && Allowed(s, op) && op != EnableLine(id)
    ensures !Bit(Step(s, op).regs.active, id) && (op.Serve? ==> op.line != id)
  {
    hide Bit, With, Without, Within, Gate, Pending, IsLowest, Nested;
    match op
    case EnableLine(other) => WithBit(s.regs.active, other, id);
    case DisableLine(other) => WithoutBit(s.regs.active, other, id);
    case Serve(line, request) => GateBit(request, s.regs.active, s.regs.mask, line);
    case _ =>
  }

  // ---- an interrupt is transparent to what it preempts

  /** The run stays above depth `d`, except that its last state may be at `d`. */
  ghost predicate Above(s: State, ops: seq<Op>, d: nat)
    requires Possible(s, ops)
    decreases |ops|
  {
    ops == [] || (Depth(s.stack) > d && Above(Step(s, ops[0]), ops[1..], d))
  }

  /** The outermost `d` invocations. */
  function Outermost(stack: Stack, d: nat): Stack {
    if Depth(stack) <= d then stack else Outermost(stack.below, d)
  }

  lemma {:induction false} OutermostStays(s: State, ops: seq<Op>, d: nat)
    requires Possible(s, ops) && Above(s, ops, d) && Depth(s.stack) >= d
    ensures Outermost(Run(s, ops).stack, d) == Outermost(s.stack, d)
    decreases |ops|
  {
    hide IsLowest, Pending, Within, Interruptible, NonInterruptible, WithActive;
    if ops != [] {
      OutermostStays(Step(s, ops[0]), ops[1..], d);
    }
  }

  /**
   * However handlers nest in between, when the interrupt taken in `s` returns, the preempted code finds the stack it
   * left, its priority mask, PIE set, and IENABLE equal to the active lines under that mask.
   */
  lemma InterruptIsTransparent(s: State, request: bv32, ops: seq<Op>)
    requires Inv(s) && Allowed(s, Interrupt(request))
    requires Possible(Step(s, Interrupt(request)), ops)
    requires Above(Step(s, Interrupt(request)), ops, Depth(s.stack))
    requires Depth(Run(Step(s, Interrupt(request)), ops).stack) == Depth(s.stack)
    ensures var t := Run(Step(s, Interrupt(request)), ops);
            && t.stack == s.stack
            && t.regs.mask == s.regs.mask && t.regs.pie == s.regs.pie
            && t.regs.ienable == Gate(t.regs.active, s.regs.mask)
  {
    hide Pending, Possible, Above, Run;
    var s1 := Step(s, Interrupt(request));
    OutermostStays(s1, ops, Depth(s.stack));
    StepKeeps(s, Interrupt(request));
    RunKeeps(s1, ops);
  }

  /** A handler that opens itself to preemption and closes itself again is back where it was, whatever ran between. */
  lemma PreemptionIsTransparent(s: State, ops: seq<Op>)
    requires Inv(s) && Allowed(s, AllowPreemption)
    requires Possible(Step(s, AllowPreemption), ops)
    requires Above(Step(s, AllowPreemption), ops, Depth(s.stack.below))
    requires Run(Step(s, AllowPreemption), ops).stack.Frame?
    requires Depth(Run(Step(s, AllowPreemption), ops).stack) == Depth(s.stack)
    requires Run(Step(s, AllowPreemption), ops).stack.phase == s.stack.phase
    ensures var t := Run(Step(s, AllowPreemption), ops);
            && t.stack == s.stack && t.regs.mask == s.regs.mask && !t.regs.pie
            && t.regs.ienable == Gate(t.regs.active, s.regs.mask)
  {
    hide Possible, Above, Run;
    var s1 := Step(s, AllowPreemption);
    OutermostStays(s1, ops, Depth(s.stack.below));
    StepKeeps(s, AllowPreemption);
    RunKeeps(s1, ops);
  }
}
