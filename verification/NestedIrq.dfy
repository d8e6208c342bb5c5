/**
 Nested interrupts: the entry and exit sequences of the three machine-mode handlers in the
 builds that allow nesting, as instruction steps on one hart. An interrupt can be taken before
 any instruction while the global enable bit and its class bit in MIE are set.
 */
module NestedIrq {

  datatype Class = Timer | External | Software

  /** The build: vectored or not, and which classes each handler leaves enabled. The timer handler
      has no option to leave its own class enabled. */
  datatype Build = Build(vectored: bool, timerMask: set<Class>, plicMask: set<Class>, softMask: set<Class>)
  {
    predicate Valid()
    {
      Timer !in timerMask
    }

    function Mask(k: Class): set<Class>
    {
      match k
      case Timer => timerMask
      case External => plicMask
      case Software => softMask
    }
  }

  /** MIE, the MIE and MPIE bits of MSTATUS, and MEPC. */
  datatype Csr = Csr(mie: set<Class>, gie: bool, pie: bool, mepc: nat)

  /** The handlers share one sequence of instructions; one that a handler does not have does nothing in it.
      The nesting counter is incremented and decremented by a load and a store. */
  datatype Instr =
    | HwClaim | VecLoadUp | VecStoreUp | Save | Claim | MaskMie | Open
    | LoadUp | StoreUp | Callback | LoadDown | StoreDown | Complete
    | Close | VecComplete | RestoreMie | RestoreStatus | RestoreEpc | VecLoadDown | VecStoreDown | Mret

  /** Program order. */
  function Pos(i: Instr): nat
  {
    match i
    case HwClaim => 0 case VecLoadUp => 1 case VecStoreUp => 2 case Save => 3 case Claim => 4
    case MaskMie => 5 case Open => 6
    case LoadUp => 7 case StoreUp => 8 case Callback => 9 case LoadDown => 10 case StoreDown => 11
    case Complete => 12
    case Close => 13 case VecComplete => 14 case RestoreMie => 15 case RestoreStatus => 16
    case RestoreEpc => 17 case VecLoadDown => 18 case VecStoreDown => 19 case Mret => 20
  }

  function Succ(i: Instr): (j: Instr)
    ensures i != Mret ==> Pos(j) == Pos(i) + 1
  {
    match i
    case HwClaim => VecLoadUp case VecLoadUp => VecStoreUp case VecStoreUp => Save case Save => Claim
    case Claim => MaskMie case MaskMie => Open case Open => LoadUp
    case LoadUp => StoreUp case StoreUp => Callback case Callback => LoadDown case LoadDown => StoreDown
    case StoreDown => Complete case Complete => Close
    case Close => VecComplete case VecComplete => RestoreMie case RestoreMie => RestoreStatus
    case RestoreStatus => RestoreEpc case RestoreEpc => VecLoadDown case VecLoadDown => VecStoreDown
    case VecStoreDown => Mret case Mret => Mret
  }

  /** The instruction has been executed when the handler stands at `at`. */
  predicate Past(at: Instr, i: Instr)
  {
    Pos(at) > Pos(i)
  }

  /** One handler in progress, standing at instruction `at`. `pc0` and `mie0` are the interrupted context; `saved`
      are the CSR copies on the handler's stack; `reg` is the register the nesting counter passes through. */
  datatype Frame = Frame(kind: Class, src: nat, at: Instr, pc0: nat, mie0: set<Class>, saved: Csr, reg: nat)

  /** Handlers in progress, innermost first. */
  datatype Stack = Empty | Push(top: Frame, rest: Stack)

  /** `claims` are the sources claimed and not yet completed, latest first; `counter` is the 8-bit nesting counter. */
  datatype Hart = Hart(csr: Csr, stack: Stack, claims: seq<nat>, counter: nat)

  datatype Step =
    | Take(kind: Class, src: nat, pc: nat)  // an interrupt arrives
    | Next                                  // the running handler executes one instruction
    | WriteMie(mie: set<Class>)             // a callback, or the main program, writes MIE
    | WriteGie(on: bool)                    // ... or switches interrupts off or on

  predicate InCallback(h: Hart)
  {
    h.stack.Empty? || h.stack.top.at.Callback?
  }

  predicate Enabled(h: Hart, step: Step)
  {
    match step
    case Take(kind, _, _) => h.csr.gie && kind in h.csr.mie
    case Next => h.stack.Push?
    case WriteMie(_) => InCallback(h)
    case WriteGie(_) => InCallback(h)
  }

  predicate Vectored(b: Build, f: Frame) { b.vectored && f.kind.External? }

  predicate Direct(b: Build, f: Frame) { !b.vectored && f.kind.External? }

  /** The handler reads and writes the claim register itself. */
  predicate ByHand(b: Build, f: Frame) { Direct(b, f) || f.kind.Software? }

  function Drop(s: seq<nat>): seq<nat> { if s == [] then [] else s[1..] }

  /** The instruction at which a handler stands, as far as it concerns the CSRs ... */
  function CsrAfter(b: Build, f: Frame, c: Csr): Csr
  {
    match f.at
    case MaskMie => c.(mie := b.Mask(f.kind) * c.mie)
    case Open => c.(gie := true)
    case Close => c.(gie := false)
    case RestoreMie => c.(mie := f.saved.mie)
    case RestoreStatus => c.(gie := f.saved.gie, pie := f.saved.pie)
    case RestoreEpc => c.(mepc := f.saved.mepc)
    case Mret => c.(gie := c.pie, pie := true)
    case _ => c
  }

  /** ... the interrupt controller ... */
  function ClaimsAfter(b: Build, f: Frame, claims: seq<nat>): seq<nat>
  {
    match f.at
    case HwClaim => if Vectored(b, f) then [f.src] + claims else claims
    case Claim => if ByHand(b, f) then [f.src] + claims else claims
    case Complete => if ByHand(b, f) then Drop(claims) else claims
    case VecComplete => if Vectored(b, f) then Drop(claims) else claims
    case _ => claims
  }

  /** Arithmetic of an 8-bit counter. */
  function Wrap(x: int): nat { x % 256 }

  /** ... the nesting counter ... */
  function CounterAfter(b: Build, f: Frame, counter: nat): nat
  {
    match f.at
    case VecStoreUp => if Vectored(b, f) then Wrap(f.reg + 1) else counter
    case StoreUp => if Direct(b, f) then Wrap(f.reg + 1) else counter
    case StoreDown => if Direct(b, f) then Wrap(f.reg - 1) else counter
    case VecStoreDown => if Vectored(b, f) then Wrap(f.reg - 1) else counter
    case _ => counter
  }

  /** ... and the handler's own stack and registers. */
  function FrameAfter(b: Build, f: Frame, c: Csr, counter: nat): Frame
  {
    var g := f.(at := Succ(f.at));
    match f.at
    case Save => g.(saved := c)
    case VecLoadUp => g.(reg := counter)
    case LoadUp => g.(reg := counter)
    case LoadDown => g.(reg := counter)
    case VecLoadDown => g.(reg := counter)
    case _ => g
  }

  /** One instruction of the innermost handler. */
  function Execute(b: Build, h: Hart): Hart
    requires h.stack.Push?
  {
    var f := h.stack.top;
    Hart(CsrAfter(b, f, h.csr),
         if f.at.Mret? then h.stack.rest else Push(FrameAfter(b, f, h.csr, h.counter), h.stack.rest),
         ClaimsAfter(b, f, h.claims),
         CounterAfter(b, f, h.counter))
  }

  function Apply(b: Build, h: Hart, step: Step): Hart
    requires Enabled(h, step)
  {
    match step
    case Take(kind, src, pc) =>
      Hart(h.csr.(gie := false, pie := h.csr.gie, mepc := pc),
           Push(Frame(kind, src, HwClaim, pc, h.csr.mie, h.csr, 0), h.stack), h.claims, h.counter)
    case Next => Execute(b, h)
    case WriteMie(mie) => h.(csr := h.csr.(mie := mie))
    case WriteGie(on) => h.(csr := h.csr.(gie := on))
  }

  // ---------------------------------------------------------------- the invariant

  /** Interrupts are open in the handler. */
  predicate IsOpen(f: Frame)
  {
    Past(f.at, Open) && !Past(f.at, Close)
  }

  /** The copies on the handler's stack are the interrupted context. */
  predicate SavedOk(f: Frame)
  {
    Past(f.at, Save) ==> f.saved == Csr(f.mie0, false, true, f.pc0)
  }

  /** What the CSRs hold while the handler is the innermost one. */
  predicate CsrOk(f: Frame, c: Csr)
  {
    && (!Past(f.at, Save) ==> c.mepc == f.pc0 && c.pie)
    && (!Past(f.at, MaskMie) || Past(f.at, RestoreMie) ==> c.mie == f.mie0)
    && (!Past(f.at, Open) || Past(f.at, Close) ==> !c.gie)
    && (Past(f.at, RestoreStatus) ==> c.pie)
    && (Past(f.at, RestoreEpc) ==> c.mepc == f.pc0)
  }

  /** The handler has claimed its source and not yet completed it. */
  predicate HasClaim(b: Build, f: Frame)
  {
    || (Vectored(b, f) && Past(f.at, HwClaim) && !Past(f.at, VecComplete))
    || (ByHand(b, f) && Past(f.at, Claim) && !Past(f.at, Complete))
  }

  /** The sources claimed by the handlers in progress, innermost first. */
  function Claims(b: Build, s: Stack): seq<nat>
  {
    match s
    case Empty => []
    case Push(f, rest) => (if HasClaim(b, f) then [f.src] else []) + Claims(b, rest)
  }

  /** The nesting counter includes the handler. */
  predicate Counted(b: Build, f: Frame)
  {
    || (Vectored(b, f) && Past(f.at, VecStoreUp) && !Past(f.at, VecStoreDown))
    || (Direct(b, f) && Past(f.at, StoreUp) && !Past(f.at, StoreDown))
  }

  function Depth(b: Build, s: Stack): nat
  {
    match s
    case Empty => 0
    case Push(f, rest) => (if Counted(b, f) then 1 else 0) + Depth(b, rest)
  }

  /** The handler has loaded the counter and not yet stored it back. */
  predicate HoldsCounter(b: Build, f: Frame)
  {
    || (Vectored(b, f) && (f.at.VecStoreUp? || f.at.VecStoreDown?))
    || (Direct(b, f) && (f.at.StoreUp? || f.at.StoreDown?))
  }

  /** Every handler that has the counter in its register has it right. */
  predicate RegsOk(b: Build, s: Stack)
  {
    s.Push? ==> (HoldsCounter(b, s.top) ==> s.top.reg == Wrap(Depth(b, s))) && RegsOk(b, s.rest)
  }

  /** Handlers that have been interrupted: each stood where interrupts are open. */
  predicate Suspended(s: Stack)
  {
    s.Push? ==> IsOpen(s.top) && SavedOk(s.top) && Suspended(s.rest)
  }

  predicate CsrInvariant(h: Hart)
  {
    h.stack.Push? ==> CsrOk(h.stack.top, h.csr) && SavedOk(h.stack.top) && Suspended(h.stack.rest)
  }

  predicate CountInvariant(b: Build, h: Hart)
  {
    h.counter == Wrap(Depth(b, h.stack)) && RegsOk(b, h.stack)
  }

  predicate Invariant(b: Build, h: Hart)
  {
    CsrInvariant(h) && h.claims == Claims(b, h.stack) && CountInvariant(b, h)
  }

  lemma CounterWraps(d: nat)
    ensures Wrap(Wrap(d) + 1) == Wrap(d + 1)
    ensures Wrap(Wrap(d + 1) - 1) == Wrap(d)
  {
  }

  /** An instruction keeps what the CSRs and the saved copies hold, and a return leaves the interrupted context. */
  lemma CsrStep(b: Build, f: Frame, c: Csr, counter: nat)
    requires CsrOk(f, c) && SavedOk(f)
    ensures f.at != Mret ==>
              CsrOk(FrameAfter(b, f, c, counter), CsrAfter(b, f, c)) && SavedOk(FrameAfter(b, f, c, counter))
    ensures f.at == Mret ==> CsrAfter(b, f, c) == Csr(f.mie0, true, true, f.pc0)
  {
    hide Succ;
  }

  lemma ClaimStep(b: Build, f: Frame, c: Csr, counter: nat, rest: seq<nat>)
    ensures var held := (if HasClaim(b, f) then [f.src] else []) + rest;
            var g := FrameAfter(b, f, c, counter);
            ClaimsAfter(b, f, held) ==
              if f.at == Mret then rest else (if HasClaim(b, g) then [g.src] else []) + rest
  {
    hide Succ;
  }

  lemma CountStep(b: Build, f: Frame, c: Csr, counter: nat, d: nat)
    requires counter == Wrap((if Counted(b, f) then 1 else 0) + d)
    requires HoldsCounter(b, f) ==> f.reg == counter
    ensures f.at == Mret ==> CounterAfter(b, f, counter) == Wrap(d)
    ensures f.at != Mret ==>
              var g := FrameAfter(b, f, c, counter);
              && CounterAfter(b, f, counter) == Wrap((if Counted(b, g) then 1 else 0) + d)
              && (HoldsCounter(b, g) ==> g.reg == CounterAfter(b, f, counter))
  {
    hide Wrap;
    CounterWraps(d);
  }

  lemma FreshHandler(b: Build, f: Frame, c: Csr)
    requires f.at == HwClaim && c == Csr(f.mie0, false, true, f.pc0)
    ensures !HasClaim(b, f) && !Counted(b, f) && !HoldsCounter(b, f) && CsrOk(f, c) && SavedOk(f)
  {
  }

  /** A handler that stands where interrupts are open accepts any CSR contents. */
  lemma FreshCsr(s: Stack, c: Csr)
    requires Suspended(s)
    ensures s.Push? ==> CsrOk(s.top, c)
  {
  }

  /** A handler that can be interrupted stands where interrupts are open. */
  lemma InterruptedIsOpen(f: Frame, c: Csr)
    requires CsrOk(f, c) && c.gie
    ensures IsOpen(f)
  {
  }

  lemma NextKeeps(b: Build, h: Hart)
    requires Invariant(b, h) && h.stack.Push?
    ensures Invariant(b, Execute(b, h))
  {
    hide CsrAfter, ClaimsAfter, CounterAfter, FrameAfter, HasClaim, Counted, HoldsCounter, CsrOk, SavedOk, IsOpen;
    var f, rest := h.stack.top, h.stack.rest;
    CsrStep(b, f, h.csr, h.counter);
    ClaimStep(b, f, h.csr, h.counter, Claims(b, rest));
    CountStep(b, f, h.csr, h.counter, Depth(b, rest));
    FreshCsr(rest, CsrAfter(b, f, h.csr));
  }

  lemma TakeKeeps(b: Build, h: Hart, step: Step)
    requires Invariant(b, h) && Enabled(h, step) && step.Take?
    ensures Invariant(b, Apply(b, h, step))
  {
    hide HasClaim, Counted, HoldsCounter, CsrOk, SavedOk, IsOpen;
    var g := Apply(b, h, step);
    FreshHandler(b, g.stack.top, g.csr);
    if h.stack.Push? { InterruptedIsOpen(h.stack.top, h.csr); }
  }

  lemma StepKeepsInvariant(b: Build, h: Hart, step: Step)
    requires Invariant(b, h) && Enabled(h, step)
    ensures Invariant(b, Apply(b, h, step))
  {
    hide HasClaim, Counted, HoldsCounter, SavedOk, IsOpen, Execute;
    match step
    case Next => NextKeeps(b, h);
    case Take(_, _, _) => TakeKeeps(b, h, step);
    case WriteMie(_) =>
    case WriteGie(_) =>
  }

  // ---------------------------------------------------------------- whole runs

  predicate Possible(b: Build, h: Hart, steps: seq<Step>)
    decreases |steps|
  {
    steps == [] || (Enabled(h, steps[0]) && Possible(b, Apply(b, h, steps[0]), steps[1..]))
  }

  function Run(b: Build, h: Hart, steps: seq<Step>): Hart
    requires Possible(b, h, steps)
    decreases |steps|
  {
    if steps == [] then h else Run(b, Apply(b, h, steps[0]), steps[1..])
  }

  /** The main program, before any interrupt. */
  predicate Idle(h: Hart)
  {
    h.stack.Empty? && h.claims == [] && h.counter == 0
  }

  lemma {:induction false} RunKeepsInvariant(b: Build, h: Hart, steps: seq<Step>)
    requires Invariant(b, h) && Possible(b, h, steps)
    ensures Invariant(b, Run(b, h, steps))
    decreases |steps|
  {
    if steps != [] {
      StepKeepsInvariant(b, h, steps[0]);
      RunKeepsInvariant(b, Apply(b, h, steps[0]), steps[1..]);
    }
  }

  /** In every run, whatever the depth and whatever callbacks write to MIE: a return gives the interrupted code
      back its MIE, its enabled interrupts and its program counter. */
  lemma ReturnRestoresContext(b: Build, h: Hart, steps: seq<Step>)
    requires Idle(h) && Possible(b, h, steps)
    requires var t := Run(b, h, steps); t.stack.Push? && t.stack.top.at == Mret
    ensures var t := Run(b, h, steps); var f := t.stack.top;
            Apply(b, t, Next).csr == Csr(f.mie0, true, true, f.pc0) && Apply(b, t, Next).stack == t.stack.rest
  {
    RunKeepsInvariant(b, h, steps);
    var t := Run(b, h, steps);
    CsrStep(b, t.stack.top, t.csr, t.counter);
  }

  /** Once a handler has closed interrupts for its exit, none is taken before it has returned. */
  lemma NoInterruptDuringExit(b: Build, h: Hart, steps: seq<Step>, kind: Class, src: nat, pc: nat)
    requires Idle(h) && Possible(b, h, steps)
    requires var t := Run(b, h, steps); t.stack.Push? && (Past(t.stack.top.at, Close) || !Past(t.stack.top.at, Open))
    ensures !Enabled(Run(b, h, steps), Take(kind, src, pc))
  {
    RunKeepsInvariant(b, h, steps);
  }

  /** The handler is about to write the complete register. */
  predicate Completing(b: Build, f: Frame)
  {
    (f.at == Complete && ByHand(b, f)) || (f.at == VecComplete && Vectored(b, f))
  }

  /** Completes match claims in last-in first-out order: a handler completes the source claimed last, its own. */
  lemma CompletesOwnClaim(b: Build, h: Hart, steps: seq<Step>)
    requires Idle(h) && Possible(b, h, steps)
    requires Run(b, h, steps).stack.Push? && Completing(b, Run(b, h, steps).stack.top)
    ensures var t := Run(b, h, steps);
            && t.claims == [t.stack.top.src] + Claims(b, t.stack.rest)
            && Apply(b, t, Next).claims == Claims(b, t.stack.rest)
  {
    RunKeepsInvariant(b, h, steps);
    var t := Run(b, h, steps);
    assert HasClaim(b, t.stack.top);
  }

  /** Back in the main program every claim is completed and the nesting counter is zero, although its
      increments and decrements can be interrupted half way. */
  lemma EverythingIsBalanced(b: Build, h: Hart, steps: seq<Step>)
    requires Idle(h) && Possible(b, h, steps)
    ensures Run(b, h, steps).stack.Empty? ==> Idle(Run(b, h, steps))
  {
    RunKeepsInvariant(b, h, steps);
  }

  // ---------------------------------------------------------------- "in an interrupt handler"

  /** Some handler in progress stands between its two counter updates. Only external handlers have them. */
  predicate AnyCounted(b: Build, s: Stack)
  {
    s.Push? && (Counted(b, s.top) || AnyCounted(b, s.rest))
  }

  function Height(s: Stack): nat
  {
    if s.Empty? then 0 else 1 + Height(s.rest)
  }

  lemma {:induction false} DepthOfStack(b: Build, s: Stack)
    ensures Depth(b, s) <= Height(s)
    ensures Depth(b, s) > 0 <==> AnyCounted(b, s)
    decreases s
  {
    hide Counted;
    if s.Push? { DepthOfStack(b, s.rest); }
  }

  /** "In an interrupt handler" is answered rightly, in a run of any depth, exactly unless handlers are in progress
      and the number of those between their counter updates is a multiple of 256, zero included. With fewer than 256
      handlers in progress that means: unless no external handler is between its counter updates. */
  lemma IsInIsrExact(b: Build, h: Hart, steps: seq<Step>)
    requires Idle(h) && Possible(b, h, steps)
    ensures var t := Run(b, h, steps);
            && ((t.counter > 0 <==> t.stack.Push?) <==> (t.stack.Push? ==> Depth(b, t.stack) % 256 != 0))
            && (Height(t.stack) < 256 ==>
                  ((t.counter > 0 <==> t.stack.Push?) <==> (t.stack.Push? ==> AnyCounted(b, t.stack))))
  {
    hide Possible, Run;
    CounterIsDepth(b, h, steps);
    DepthOfStack(b, Run(b, h, steps).stack);
  }

  lemma CounterIsDepth(b: Build, h: Hart, steps: seq<Step>)
    requires Idle(h) && Possible(b, h, steps)
    ensures Run(b, h, steps).counter == Depth(b, Run(b, h, steps).stack) % 256
  {
    RunKeepsInvariant(b, h, steps);
  }

  /** Handlers of the timer or software class only. */
  predicate NoExternal(s: Stack)
  {
    s.Push? ==> !s.top.kind.External? && NoExternal(s.rest)
  }

  lemma {:induction false} NoExternalNoneCounted(b: Build, s: Stack)
    requires NoExternal(s)
    ensures !AnyCounted(b, s)
    decreases s
  {
    if s.Push? { NoExternalNoneCounted(b, s.rest); }
  }

  /** The whole failing family below 256 handlers, first half: timer and software handlers, however deep, are not
      recognised. */
  lemma TimerAndSoftwareGoUnseen(b: Build, h: Hart, steps: seq<Step>)
    requires Idle(h) && Possible(b, h, steps) && NoExternal(Run(b, h, steps).stack)
    ensures Run(b, h, steps).counter == 0
  {
    hide Possible, Run;
    CounterIsDepth(b, h, steps);
    NoExternalNoneCounted(b, Run(b, h, steps).stack);
    DepthOfStack(b, Run(b, h, steps).stack);
  }

  /** Second half: with one external handler alone, its callback is recognised, and its first and last instructions,
      outside the counter updates, are not. */
  lemma ExternalIsSeenIff(b: Build, h: Hart, steps: seq<Step>)
    requires Idle(h) && Possible(b, h, steps)
    requires var s := Run(b, h, steps).stack; s.Push? && s.top.kind.External? && NoExternal(s.rest)
    ensures var t := Run(b, h, steps); var at := t.stack.top.at;
            t.counter > 0 <==>
              if b.vectored then Past(at, VecStoreUp) && !Past(at, VecStoreDown)
              else Past(at, StoreUp) && !Past(at, StoreDown)
  {
    hide Pos, Possible, Run;
    CounterIsDepth(b, h, steps);
    var s := Run(b, h, steps).stack;
    NoExternalNoneCounted(b, s.rest);
    DepthOfStack(b, s.rest);
  }

  /** A timer interrupt taken in the main program is in a handler and answers no. */
  lemma TimerHandlerAnswersNo(b: Build, h: Hart, pc: nat)
    requires Idle(h) && h.csr.gie && Timer in h.csr.mie
    ensures var steps := [Take(Timer, 0, pc)];
            Possible(b, h, steps) && Run(b, h, steps).stack.Push? && Run(b, h, steps).counter == 0
  {
    RunOne(b, h, Take(Timer, 0, pc));
  }

  // ---------------------------------------------------------------- masked classes stay out

  /** Handlers in a stack, innermost first. */
  function Kinds(s: Stack): seq<Class>
  {
    if s.Empty? then [] else [s.top.kind] + Kinds(s.rest)
  }

  /** The classes are left enabled by every handler in progress. */
  predicate Within(b: Build, s: Stack, mie: set<Class>)
  {
    s.Push? ==> mie <= b.Mask(s.top.kind) && Within(b, s.rest, mie)
  }

  /** What was enabled at each interruption was left enabled by every handler outside it. */
  predicate WithinBelow(b: Build, s: Stack)
  {
    s.Push? ==> Within(b, s.rest, s.top.mie0) && WithinBelow(b, s.rest)
  }

  /** Whatever is enabled now, and whatever was enabled at each interruption, respects all masks outside it. */
  predicate Confined(b: Build, h: Hart)
  {
    h.stack.Push? ==>
      && (Past(h.stack.top.at, MaskMie) && !Past(h.stack.top.at, RestoreMie) ==> Within(b, h.stack, h.csr.mie))
      && WithinBelow(b, h.stack)
  }

  /** Each handler was left enabled by all the handlers outside it. */
  predicate Permitted(b: Build, s: Stack)
  {
    s.Push? ==> (forall k :: k in Kinds(s.rest) ==> s.top.kind in b.Mask(k)) && Permitted(b, s.rest)
  }

  lemma {:induction false} WithinIs(b: Build, s: Stack, mie: set<Class>)
    ensures Within(b, s, mie) <==> forall kind, k :: kind in mie && k in Kinds(s) ==> kind in b.Mask(k)
    decreases s
  {
    if s.Push? {
      WithinIs(b, s.rest, mie);
      assert forall k :: k in Kinds(s) <==> k == s.top.kind || k in Kinds(s.rest);
    }
  }

  lemma {:induction false} WithinShrinks(b: Build, s: Stack, big: set<Class>, small: set<Class>)
    requires Within(b, s, big) && small <= big
    ensures Within(b, s, small)
    decreases s
  {
    if s.Push? { WithinShrinks(b, s.rest, big, small); }
  }

  /** A callback may write MIE, if it enables only what every handler in progress leaves enabled. */
  predicate Polite(b: Build, h: Hart, step: Step)
  {
    step.WriteMie? ==> Within(b, h.stack, step.mie)
  }

  lemma TakeConfined(b: Build, h: Hart, step: Step)
    requires Invariant(b, h) && Enabled(h, step) && Confined(b, h) && Permitted(b, h.stack) && step.Take?
    ensures Confined(b, Apply(b, h, step)) && Permitted(b, Apply(b, h, step).stack)
  {
    hide Pos, HasClaim, Counted, HoldsCounter;
    if h.stack.Push? { InterruptedIsOpen(h.stack.top, h.csr); OpenIsMasked(h.stack.top); }
    FreshIsUnmasked();
    assert Within(b, h.stack, h.csr.mie) && WithinBelow(b, h.stack);
    WithinIs(b, h.stack, h.csr.mie);
    var g := Apply(b, h, step);
    assert g.stack.rest == h.stack && g.stack.top.mie0 == h.csr.mie && g.stack.top.at == HwClaim;
    assert WithinBelow(b, g.stack);
  }

  lemma OpenIsMasked(f: Frame)
    requires IsOpen(f)
    ensures Past(f.at, MaskMie) && !Past(f.at, RestoreMie)
  {
  }

  lemma FreshIsUnmasked()
    ensures !Past(HwClaim, MaskMie) && Past(Callback, MaskMie) && !Past(Callback, RestoreMie)
  {
  }

  /** The instructions of a handler keep MIE within all masks: masking makes it so, from what was enabled before. */
  lemma NextConfined(b: Build, h: Hart)
    requires Invariant(b, h) && h.stack.Push? && Confined(b, h) && Permitted(b, h.stack)
    ensures Confined(b, Execute(b, h)) && Permitted(b, Execute(b, h).stack)
  {
    hide ClaimsAfter, CounterAfter, HasClaim, Counted, HoldsCounter, Claims, RegsOk, Depth;
    var f, rest := h.stack.top, h.stack.rest;
    if f.at == Mret {
      if rest.Push? { OpenIsMasked(rest.top); }
    } else if f.at == MaskMie {
      WithinShrinks(b, rest, f.mie0, b.Mask(f.kind) * h.csr.mie);
    }
  }

  lemma ConfinedKept(b: Build, h: Hart, step: Step)
    requires Invariant(b, h) && Enabled(h, step) && Confined(b, h) && Permitted(b, h.stack) && Polite(b, h, step)
    ensures Confined(b, Apply(b, h, step)) && Permitted(b, Apply(b, h, step).stack)
  {
    hide Execute, Invariant, Pos;
    match step
    case Take(_, _, _) => TakeConfined(b, h, step);
    case Next => NextConfined(b, h);
    case WriteMie(_) => FreshIsUnmasked();
    case WriteGie(_) =>
  }

  /** All MIE writes of a run are polite. */
  predicate PoliteRun(b: Build, h: Hart, steps: seq<Step>)
    requires Possible(b, h, steps)
    decreases |steps|
  {
    steps != [] ==> Polite(b, h, steps[0]) && PoliteRun(b, Apply(b, h, steps[0]), steps[1..])
  }

  lemma {:induction false} RunStaysConfined(b: Build, h: Hart, steps: seq<Step>)
    requires Invariant(b, h) && Confined(b, h) && Permitted(b, h.stack)
    requires Possible(b, h, steps) && PoliteRun(b, h, steps)
    ensures var t := Run(b, h, steps); Invariant(b, t) && Confined(b, t) && Permitted(b, t.stack)
    decreases |steps|
  {
    if steps != [] {
      StepKeepsInvariant(b, h, steps[0]);
      ConfinedKept(b, h, steps[0]);
      RunStaysConfined(b, Apply(b, h, steps[0]), steps[1..]);
    }
  }

  lemma IdleIsConfined(b: Build, h: Hart)
    requires Idle(h)
    ensures Invariant(b, h) && Confined(b, h) && Permitted(b, h.stack)
  {
  }

  /** If callbacks enable no class that a handler in progress masks, a class masked by a handler is not taken anywhere
      inside it; in particular the timer handler is never re-entered. */
  lemma MaskedClassesStayOut(b: Build, h: Hart, steps: seq<Step>)
    requires b.Valid() && Idle(h) && Possible(b, h, steps) && PoliteRun(b, h, steps)
    ensures var s := Run(b, h, steps).stack;
            Permitted(b, s) && (s.Push? && s.top.kind == Timer ==> Timer !in Kinds(s.rest))
  {
    RunStaysConfined(b, h, steps);
  }

  /** A callback that only clears bits is polite, and so is one that later, with the same handlers in progress, writes
      back what it had read: the disable and restore pair. */
  lemma ClearingAndRestoringArePolite(b: Build, h: Hart, steps: seq<Step>, mie: set<Class>, later: Hart)
    requires Idle(h) && Possible(b, h, steps) && PoliteRun(b, h, steps)
    requires var t := Run(b, h, steps);
             InCallback(t) && mie <= t.csr.mie && Kinds(later.stack) == Kinds(t.stack)
    ensures Polite(b, Run(b, h, steps), WriteMie(mie)) && Polite(b, later, WriteMie(mie))
  {
    RunStaysConfined(b, h, steps);
    var t := Run(b, h, steps);
    FreshIsUnmasked();
    if t.stack.Push? { WithinShrinks(b, t.stack, t.csr.mie, mie); }
    WithinIs(b, t.stack, mie);
    WithinIs(b, later.stack, mie);
  }

  /** The condition is exact. After any run in which it was kept, and for any write by the callback then running:
      every interrupt that can come in after it is one that all handlers in progress leave enabled, if and only if
      the write is polite. */
  lemma PoliteIffMaskedStayOut(b: Build, h: Hart, steps: seq<Step>, mie: set<Class>, src: nat, pc: nat)
    requires Idle(h) && Possible(b, h, steps) && PoliteRun(b, h, steps) && InCallback(Run(b, h, steps))
    ensures var t := Run(b, h, steps);
            (forall kind :: kind in mie ==> Possible(b, t, Intrusion(mie, kind, src, pc)))
            && ((forall kind :: kind in mie ==> Permitted(b, Run(b, t, Intrusion(mie, kind, src, pc)).stack))
                <==> Polite(b, t, WriteMie(mie)))
  {
    hide Invariant, Idle, Confined, Permitted, Kinds, Run, Possible, Within;
    IdleIsConfined(b, h);
    RunStaysConfined(b, h, steps);
    var t := Run(b, h, steps);
    forall kind | kind in mie
      ensures Possible(b, t, Intrusion(mie, kind, src, pc))
      ensures Permitted(b, Run(b, t, Intrusion(mie, kind, src, pc)).stack)
           <==> forall k :: k in Kinds(t.stack) ==> kind in b.Mask(k)
    {
      IntrusionRuns(b, t, mie, kind, src, pc);
    }
    WithinIs(b, t.stack, mie);
  }

  /** A callback that submits work enables software interrupts and, with all interrupts, external ones. That is polite
      exactly if every handler in progress leaves both classes enabled. */
  lemma SubmissionIsPoliteIff(b: Build, h: Hart, steps: seq<Step>)
    requires Idle(h) && Possible(b, h, steps) && PoliteRun(b, h, steps) && InCallback(Run(b, h, steps))
    ensures var t := Run(b, h, steps);
            Polite(b, t, WriteMie(t.csr.mie + {External, Software}))
            <==> forall k :: k in Kinds(t.stack) ==> External in b.Mask(k) && Software in b.Mask(k)
  {
    hide Run, Possible;
    var t := Run(b, h, steps);
    ClearingAndRestoringArePolite(b, h, steps, t.csr.mie, t);
    WithinIs(b, t.stack, t.csr.mie);
    WithinIs(b, t.stack, t.csr.mie + {External, Software});
  }

  /** The callback writes MIE and has interrupts on; an interrupt of this class comes in. */
  function Intrusion(mie: set<Class>, kind: Class, src: nat, pc: nat): seq<Step>
  {
    [WriteMie(mie), WriteGie(true), Take(kind, src, pc)]
  }

  lemma IntrusionRuns(b: Build, t: Hart, mie: set<Class>, kind: Class, src: nat, pc: nat)
    requires InCallback(t) && kind in mie && Permitted(b, t.stack)
    ensures var steps := Intrusion(mie, kind, src, pc);
            && Possible(b, t, steps)
            && Run(b, t, steps).stack.Push?
            && Kinds(Run(b, t, steps).stack) == [kind] + Kinds(t.stack)
            && (Permitted(b, Run(b, t, steps).stack) <==> forall k :: k in Kinds(t.stack) ==> kind in b.Mask(k))
  {
    var steps := Intrusion(mie, kind, src, pc);
    var t1 := Apply(b, t, steps[0]);
    var t2 := Apply(b, t1, steps[1]);
    RunOne(b, t2, steps[2]);
    assert steps[2..] == [steps[2]] && steps[1..][1..] == steps[2..];
    assert Possible(b, t1, steps[1..]) && Run(b, t1, steps[1..]) == Run(b, t2, steps[2..]);
  }

  // ---------------------------------------------------------------- what is left enabled does come in

  /** An interrupt taken anywhere, at any depth, runs to its callback, and there exactly those classes can be taken that
      were enabled at the interruption and that the handler leaves enabled. */
  lemma CallbackAdmitsExactly(b: Build, h: Hart, k: Class, src: nat, pc: nat)
    requires Enabled(h, Take(k, src, pc))
    ensures var steps := [Take(k, src, pc)] + Nexts(9);
            && Possible(b, h, steps)
            && var t := Run(b, h, steps);
               && t.stack.Push? && t.stack.top.at == Callback && t.stack.top.kind == k && t.stack.top.src == src
               && t.stack.rest == h.stack
               && forall k2, src2, pc2 ::
                    Enabled(t, Take(k2, src2, pc2)) <==> k2 in b.Mask(k) && k2 in h.csr.mie
  {
    hide Execute, Pos, Nexts;
    var steps := [Take(k, src, pc)] + Nexts(9);
    ReachCallback(b, Apply(b, h, steps[0]));
    assert steps[1..] == Nexts(9);
  }

  /** There, an external or software source has been claimed, and an external handler has been counted. */
  lemma CallbackHasClaimed(b: Build, h: Hart, k: Class, src: nat, pc: nat)
    requires Invariant(b, h) && Enabled(h, Take(k, src, pc))
    ensures var steps := [Take(k, src, pc)] + Nexts(9);
            && Possible(b, h, steps)
            && var t := Run(b, h, steps);
               && t.claims == (if k == Timer then [] else [src]) + h.claims
               && t.counter == if k == External then (h.counter + 1) % 256 else h.counter
  {
    hide Execute, Pos, Nexts, Invariant, Run, Possible, HasClaim, Counted;
    var steps := [Take(k, src, pc)] + Nexts(9);
    CallbackAdmitsExactly(b, h, k, src, pc);
    RunKeepsInvariant(b, h, steps);
    var t := Run(b, h, steps);
    CallbackCounts(b, t, h);
  }

  lemma CallbackCounts(b: Build, t: Hart, h: Hart)
    requires Invariant(b, t) && Invariant(b, h)
    requires t.stack.Push? && t.stack.rest == h.stack && t.stack.top.at == Callback
    ensures var f := t.stack.top;
            && t.claims == (if f.kind == Timer then [] else [f.src]) + h.claims
            && t.counter == if f.kind == External then (h.counter + 1) % 256 else h.counter
  {
    hide CsrInvariant, RegsOk;
    CounterWraps(Depth(b, h.stack));
  }

  /** One instruction before the return moves the handler on. */
  lemma Advances(b: Build, h: Hart)
    requires h.stack.Push? && Pos(h.stack.top.at) < 20
    ensures var t, f := Execute(b, h), h.stack.top;
            && t.stack.Push? && Pos(t.stack.top.at) == Pos(f.at) + 1 && t.stack.rest == h.stack.rest
            && t.stack.top.kind == f.kind && t.stack.top.src == f.src
            && t.stack.top.mie0 == f.mie0 && t.stack.top.pc0 == f.pc0
  {
    hide Succ, CsrAfter, ClaimsAfter, CounterAfter;
  }

  /** Left to itself, a handler proceeds. */
  lemma {:induction false} Proceeds(b: Build, h: Hart, n: nat)
    requires h.stack.Push? && Pos(h.stack.top.at) + n <= 20
    ensures Possible(b, h, Nexts(n))
    ensures var t, f := Run(b, h, Nexts(n)), h.stack.top;
            && t.stack.Push? && Pos(t.stack.top.at) == Pos(f.at) + n && t.stack.rest == h.stack.rest
            && t.stack.top.kind == f.kind && t.stack.top.src == f.src
            && t.stack.top.mie0 == f.mie0 && t.stack.top.pc0 == f.pc0
    decreases n
  {
    hide Pos, Possible, Run, Nexts, Execute;
    if n == 0 {
      RunNone(b, h);
    } else {
      Advances(b, h);
      Proceeds(b, Execute(b, h), n - 1);
      NextRuns(b, h, n - 1);
    }
  }

  lemma LeaveCallback(b: Build, h: Hart)
    requires h.stack.Push? && h.stack.top.at == Callback
    ensures Possible(b, h, Nexts(11))
    ensures var t, f := Run(b, h, Nexts(11)), h.stack.top;
            && t.stack.Push? && t.stack.top.at == Mret && t.stack.rest == h.stack.rest
            && t.stack.top.mie0 == f.mie0 && t.stack.top.pc0 == f.pc0
  {
    hide Possible, Run, Nexts;
    Proceeds(b, h, 11);
  }

  /** From its callback a handler always runs to its return, and the return leaves the hart as it was interrupted: the
      interrupted code's MIE, interrupts on, its program counter, and claims and count of the handlers outside. */
  lemma HandlerReturns(b: Build, h: Hart)
    requires Invariant(b, h) && h.stack.Push? && h.stack.top.at == Callback
    ensures Possible(b, h, Nexts(11)) && Run(b, h, Nexts(11)).stack.Push?
    ensures var f, t := h.stack.top, Apply(b, Run(b, h, Nexts(11)), Next);
            t == Hart(Csr(f.mie0, true, true, f.pc0), h.stack.rest,
                      Claims(b, h.stack.rest), Depth(b, h.stack.rest) % 256)
  {
    hide Possible, Run, Nexts, Pos;
    LeaveCallback(b, h);
    RunKeepsInvariant(b, h, Nexts(11));
    var u := Run(b, h, Nexts(11));
    CsrStep(b, u.stack.top, u.csr, u.counter);
    ReturnIs(b, u);
  }

  lemma ReturnIs(b: Build, u: Hart)
    requires Invariant(b, u) && u.stack.Push? && u.stack.top.at == Mret
    ensures Execute(b, u).stack == u.stack.rest
    ensures Execute(b, u).claims == Claims(b, u.stack.rest) && Execute(b, u).counter == Depth(b, u.stack.rest) % 256
  {
    hide CsrAfter, ClaimsAfter, CounterAfter, FrameAfter;
    NextKeeps(b, u);
  }

  /** Only the main program switches interrupts or writes MIE. */
  predicate HandsOff(b: Build, h: Hart, steps: seq<Step>)
    requires Possible(b, h, steps)
    decreases |steps|
  {
    steps != [] ==>
      && (steps[0].WriteMie? || steps[0].WriteGie? ==> h.stack.Empty?)
      && HandsOff(b, Apply(b, h, steps[0]), steps[1..])
  }

  /** The classes that the main program has enabled and that every handler in progress leaves enabled. */
  function Admitted(b: Build, s: Stack): set<Class>
    requires s.Push?
  {
    b.Mask(s.top.kind) * if s.rest.Empty? then s.top.mie0 else Admitted(b, s.rest)
  }

  /** What the main program had enabled when the outermost handler interrupted it. */
  function Outermost(s: Stack): set<Class>
    requires s.Push?
  {
    if s.rest.Empty? then s.top.mie0 else Outermost(s.rest)
  }

  lemma {:induction false} AdmittedIs(b: Build, s: Stack, kind: Class)
    requires s.Push?
    ensures kind in Admitted(b, s) <==> kind in Outermost(s) && forall k :: k in Kinds(s) ==> kind in b.Mask(k)
    decreases s
  {
    assert Kinds(s) == [s.top.kind] + Kinds(s.rest);
    if s.rest.Push? { AdmittedIs(b, s.rest, kind); }
  }

  /** What each handler interrupted had exactly these classes enabled. */
  predicate EntriesExact(b: Build, s: Stack)
  {
    s.Push? && s.rest.Push? ==> s.top.mie0 == Admitted(b, s.rest) && EntriesExact(b, s.rest)
  }

  predicate Exact(b: Build, h: Hart)
  {
    h.stack.Push? ==>
      && EntriesExact(b, h.stack)
      && (Past(h.stack.top.at, MaskMie) && !Past(h.stack.top.at, RestoreMie) ==> h.csr.mie == Admitted(b, h.stack))
      && (IsOpen(h.stack.top) ==> h.csr.gie)
  }

  lemma FrameExact(b: Build, f: Frame, c: Csr, counter: nat)
    requires CsrOk(f, c) && f.at != Mret && (IsOpen(f) ==> c.gie)
    requires Past(f.at, MaskMie) && !Past(f.at, RestoreMie) ==> c.mie == b.Mask(f.kind) * f.mie0
    ensures var g, d := FrameAfter(b, f, c, counter), CsrAfter(b, f, c);
            && (IsOpen(g) ==> d.gie) && g.kind == f.kind && g.mie0 == f.mie0
            && (Past(g.at, MaskMie) && !Past(g.at, RestoreMie) ==> d.mie == b.Mask(g.kind) * g.mie0)
  {
    hide Succ;
  }

  lemma NextExact(b: Build, h: Hart)
    requires Invariant(b, h) && h.stack.Push? && Exact(b, h)
    ensures Exact(b, Execute(b, h))
  {
    hide ClaimsAfter, CounterAfter, FrameAfter, HasClaim, Counted, HoldsCounter, Claims, RegsOk, Depth, Past;
    var f, rest := h.stack.top, h.stack.rest;
    assert Admitted(b, h.stack) == b.Mask(f.kind) * f.mie0;
    if f.at != Mret {
      hide CsrAfter;
      FrameExact(b, f, h.csr, h.counter);
    } else {
      ReturnExact(b, f, h.csr);
      if rest.Push? { OpenIsMasked(rest.top); }
    }
  }

  lemma ReturnExact(b: Build, f: Frame, c: Csr)
    requires CsrOk(f, c) && f.at == Mret
    ensures CsrAfter(b, f, c).mie == f.mie0 && CsrAfter(b, f, c).gie
  {
  }

  lemma TakeExact(b: Build, h: Hart, step: Step)
    requires Invariant(b, h) && Enabled(h, step) && step.Take? && Exact(b, h)
    ensures Exact(b, Apply(b, h, step))
  {
    hide HasClaim, Counted, HoldsCounter, Claims, RegsOk, Depth;
    if h.stack.Push? {
      InterruptedIsOpen(h.stack.top, h.csr);
      OpenIsMasked(h.stack.top);
    }
  }

  lemma {:induction false} RunStaysExact(b: Build, h: Hart, steps: seq<Step>)
    requires Invariant(b, h) && Exact(b, h) && Possible(b, h, steps) && HandsOff(b, h, steps)
    ensures Invariant(b, Run(b, h, steps)) && Exact(b, Run(b, h, steps))
    decreases |steps|
  {
    hide Invariant, Execute;
    if steps != [] {
      var step := steps[0];
      StepKeepsInvariant(b, h, step);
      if step.Next? { NextExact(b, h); } else if step.Take? { TakeExact(b, h, step); }
      RunStaysExact(b, Apply(b, h, step), steps[1..]);
    }
  }

  /** Nesting works at any depth: in every run in which handlers leave MIE and the enable bit alone, an interrupt can be
      taken in a handler that has opened interrupts, exactly if the main program had its class enabled and every
      handler in progress leaves it enabled. */
  lemma OpenHandlerAdmitsExactly(b: Build, h: Hart, steps: seq<Step>, kind: Class, src: nat, pc: nat)
    requires Idle(h) && Possible(b, h, steps) && HandsOff(b, h, steps)
    requires var s := Run(b, h, steps).stack; s.Push? && IsOpen(s.top)
    ensures var t := Run(b, h, steps);
            Enabled(t, Take(kind, src, pc)) <==>
              kind in Outermost(t.stack) && forall k :: k in Kinds(t.stack) ==> kind in b.Mask(k)
  {
    hide Run, Possible, Kinds, Outermost, Admitted;
    IdleIsConfined(b, h);
    RunStaysExact(b, h, steps);
    var t := Run(b, h, steps);
    OpenIsMasked(t.stack.top);
    AdmittedIs(b, t.stack, kind);
  }

  /** The planner's timer callback enables all classes when it plans the next event. That write is not polite, and
      from the main program there is a run in which the timer handler is interrupted by the timer. */
  lemma EnablingCallbackReopens(b: Build, h: Hart, pc: nat)
    requires b.Valid() && Idle(h) && h.csr.gie && Timer in h.csr.mie
    ensures var steps := [Take(Timer, 0, pc)] + Nexts(9);
            && Possible(b, h, steps)
            && var t := Run(b, h, steps);
               && InCallback(t) && !Polite(b, t, WriteMie({Timer, External, Software}))
               && var more := Intrusion({Timer, External, Software}, Timer, 0, pc);
                  Possible(b, t, more) && Kinds(Run(b, t, more).stack) == [Timer, Timer]
  {
    hide Execute, Pos, Nexts;
    var steps := [Take(Timer, 0, pc)] + Nexts(9);
    var t := Apply(b, h, steps[0]);
    ReachCallback(b, t);
    assert steps[1..] == Nexts(9);
    var u := Run(b, h, steps);
    assert u.stack.rest == Empty && Kinds(Empty) == [];
    assert Kinds(u.stack) == [Timer] + [] == [Timer];
    assert Permitted(b, u.stack);
    IntrusionRuns(b, u, {Timer, External, Software}, Timer, 0, pc);
  }

  function Nexts(n: nat): seq<Step>
  {
    if n == 0 then [] else [Next] + Nexts(n - 1)
  }

  lemma NextRuns(b: Build, h: Hart, n: nat)
    requires h.stack.Push? && Possible(b, Execute(b, h), Nexts(n))
    ensures Possible(b, h, Nexts(n + 1)) && Run(b, h, Nexts(n + 1)) == Run(b, Execute(b, h), Nexts(n))
  {
    hide Execute;
    assert Nexts(n + 1)[1..] == Nexts(n) && Nexts(n + 1)[0] == Next;
  }

  /** Nine instructions lead from the entry of a handler to its callback. On the way MIE is masked and interrupts are
      opened. */
  lemma ReachCallback(b: Build, h: Hart)
    requires h.stack.Push? && h.stack.top.at == HwClaim
    ensures Possible(b, h, Nexts(9))
    ensures var t, f := Run(b, h, Nexts(9)), h.stack.top;
            && t.stack.Push? && t.stack.top.at == Callback && t.stack.top.kind == f.kind && t.stack.top.src == f.src
            && t.stack.top.mie0 == f.mie0 && t.stack.rest == h.stack.rest
            && t.csr.mie == b.Mask(f.kind) * h.csr.mie && t.csr.gie
  {
    hide Pos, Possible, Run, Nexts, ClaimsAfter, CounterAfter;
    var h1 := Execute(b, h);
    var h2 := Execute(b, h1);
    var h3 := Execute(b, h2);
    var h4 := Execute(b, h3);
    var h5 := Execute(b, h4);
    var h6 := Execute(b, h5);
    var h7 := Execute(b, h6);
    var h8 := Execute(b, h7);
    var h9 := Execute(b, h8);
    RunNone(b, h9);
    NextRuns(b, h8, 0);
    NextRuns(b, h7, 1);
    NextRuns(b, h6, 2);
    NextRuns(b, h5, 3);
    NextRuns(b, h4, 4);
    NextRuns(b, h3, 5);
    NextRuns(b, h2, 6);
    NextRuns(b, h1, 7);
    NextRuns(b, h, 8);
  }

  lemma RunNone(b: Build, h: Hart)
    ensures Possible(b, h, Nexts(0)) && Run(b, h, Nexts(0)) == h
  {
  }

  lemma RunOne(b: Build, h: Hart, step: Step)
    requires Enabled(h, step)
    ensures Possible(b, h, [step]) && Run(b, h, [step]) == Apply(b, h, step)
  {
    assert [step][1..] == [];
  }
}
