/** The call stacks of one process: deferred calls, returning, and the two phases of unwinding
    that follow a thrown exception. */
module Unwinding {
  import opened Wrappers

  datatype Address = Nowhere | FunctionEntry(name: string) | BlockEntry(name: string) | Code(offset: nat)

  datatype Exception = Exception(tag: string, payload: nat)

  /** A frame that has been prepared and not yet entered, so that it has deferred nothing.  `id` stands
      for its identity, and `unusedMove` says that it holds an argument passed by move. */
  datatype Call = Call(id: nat, functionName: string, unusedMove: bool)

  /** A frame of a stack; its `unusedMove` says that no one has taken that argument yet. */
  datatype Frame = Frame(id: nat, functionName: string, returnAddress: Address, unusedMove: bool, deferred: seq<Call>)

  /** `associated` is the identity of a frame; catchers map the tag of an exception to a block. */
  datatype TryFrame = TryFrame(associated: nat, catchers: map<string, string>)

  datatype Mode = Running | OnFramePop | DuringUnwinding | Halted

  datatype Stack = Stack(frames: seq<Frame>, tryFrames: seq<TryFrame>, mode: Mode, thrown: Option<Exception>,
                         caught: Option<Exception>, ip: Address, frameNew: Option<Call>)

  /** The active stack of a process, and those waiting to be returned to: the last goes first. */
  datatype Stacks = Stacks(stack: Stack, order: seq<Stack>, finished: bool)

  /** What the dispatched instruction does.  Only a successful return, and a tail call, do more than
      change the active stack; `Local` is any other instruction, and `waits` says that the one it
      leads to may be repeated in place.  A tail call of something that is no function of the
      program is not `callable`. */
  datatype Instruction = Local(next: Stack, waits: bool) | Return | TailCall(name: string, callable: bool)

  /** What can happen to a process: a tick; one cut short because a foreign call suspends the process; such a
      call ending with an exception, of a `known` function or because there is no such function; and a
      scheduler giving a new life to a process that is stopped. */
  datatype Event =
    | Tick(i: Instruction)
    | Suspend(next: Stack)
    | ForeignThrow(e: Exception, known: bool)
    | Become(call: Call)

  // ---------------------------------------------------------------- deferred calls

  function Entered(call: Call): (f: Frame) {
    Frame(call.id, call.functionName, Nowhere, call.unusedMove, [])
  }

  function NewStack(call: Call): (s: Stack) {
    Stack([Entered(call)], [], Running, None, None, FunctionEntry(call.functionName), None)
  }

  function NewStacks(calls: seq<Call>): (r: seq<Stack>)
    ensures |r| == |calls|
  {
    seq(|calls|, i requires 0 <= i < |calls| => NewStack(calls[i]))
  }

  /** The stacks made for the deferred calls of all frames from `i` on. */
  function DeferredFrom(frames: seq<Frame>, i: nat): (r: seq<Stack>)
    requires i <= |frames|
    decreases |frames| - i
  {
    if i == |frames| then [] else NewStacks(frames[i].deferred) + DeferredFrom(frames, i + 1)
  }

  function Cleared(frames: seq<Frame>, i: nat): (r: seq<Frame>)
    ensures |r| == |frames|
  {
    seq(|frames|, j requires 0 <= j < |frames| => if j < i then frames[j] else frames[j].(deferred := []))
  }

  /** How many calls the frames from `i` up to `f` have deferred. */
  function DeferredCount(frames: seq<Frame>, i: nat, f: nat): (n: nat)
    requires i <= f <= |frames|
    decreases f - i
  {
    if i == f then 0 else |frames[i].deferred| + DeferredCount(frames, i + 1, f)
  }

  /** Each deferred call is registered once, in the order of the frames and of the calls in each:
      as stacks are returned to from the last one, they run in reverse. */
  lemma {:induction false} DeferredAt(frames: seq<Frame>, i: nat, f: nat, d: nat)
    requires i <= f < |frames| && d < |frames[f].deferred|
    ensures |DeferredFrom(frames, i)| == DeferredCount(frames, i, |frames|)
    ensures DeferredCount(frames, i, f) + d < |DeferredFrom(frames, i)|
    ensures var c := frames[f].deferred[d];
            DeferredFrom(frames, i)[DeferredCount(frames, i, f) + d]
            == Stack([Frame(c.id, c.functionName, Nowhere, c.unusedMove, [])], [], Running, None, None,
                     FunctionEntry(c.functionName), None)
    decreases |frames| - i
  {
    DeferredLength(frames, i);
    if i < f {
      DeferredAt(frames, i + 1, f, d);
    }
  }

  lemma {:induction false} DeferredLength(frames: seq<Frame>, i: nat)
    requires i <= |frames|
    ensures |DeferredFrom(frames, i)| == DeferredCount(frames, i, |frames|)
    decreases |frames| - i
  {
    if i < |frames| {
      DeferredLength(frames, i + 1);
    }
  }

  lemma {:induction false} NothingDeferred(frames: seq<Frame>, i: nat)
    requires i <= |frames| && forall j :: i <= j < |frames| ==> frames[j].deferred == []
    ensures DeferredFrom(frames, i) == [] && Cleared(frames, i) == frames
    decreases |frames| - i
  {
    if i < |frames| {
      NothingDeferred(frames, i + 1);
    }
  }

  // ---------------------------------------------------------------- where to unwind to

  /** The frame to unwind to: the topmost with this identity, or the bottom one if there is none. */
  function Target(frames: seq<Frame>, id: nat): (k: nat)
    requires frames != []
    ensures k < |frames|
    ensures frames[k].id == id || k == 0
    ensures forall j :: k < j < |frames| ==> frames[j].id != id
  {
    var n := |frames| - 1;
    if n == 0 || frames[n].id == id then n else Target(frames[..n], id)
  }

  /** The innermost block with a catcher for this tag. */
  function Handler(tryFrames: seq<TryFrame>, tag: string): (r: Option<nat>)
    ensures r.Some? ==> r.value < |tryFrames| && tag in tryFrames[r.value].catchers
    ensures forall j :: (if r.Some? then r.value < j else 0 <= j) && j < |tryFrames| ==> tag !in tryFrames[j].catchers
  {
    var n := |tryFrames|;
    if n == 0 then None
    else if tag in tryFrames[n - 1].catchers then Some(n - 1)
    else Handler(tryFrames[..n - 1], tag)
  }

  /** The exception a stack is being unwound for. */
  function Active(s: Stack): (e: Option<Exception>) {
    if s.mode == Running then s.thrown else s.caught
  }

  /** No frame from `i` on has an unused argument. */
  predicate AllMovesUsed(frames: seq<Frame>, i: nat) {
    forall j :: i <= j < |frames| ==> !frames[j].unusedMove
  }

  // ---------------------------------------------------------------- the steps

  function SwitchToTop(order: seq<Stack>): (r: Stacks)
    requires order != []
  {
    Stacks(order[|order| - 1], order[..|order| - 1], false)
  }

  /** A stack that waits for the deferred calls of the frames it is about to lose. */
  function Suspended(s: Stack, e: Exception, m: nat): (r: Stack)
    requires s.frames != [] && m < |s.tryFrames| && e.tag in s.tryFrames[m].catchers
  {
    s.(mode := DuringUnwinding, thrown := None, caught := Some(e), tryFrames := s.tryFrames[..m + 1],
       frames := Cleared(s.frames, Target(s.frames, s.tryFrames[m].associated) + 1),
       ip := BlockEntry(s.tryFrames[m].catchers[e.tag]))
  }

  /** The stack after the exception is caught by its block `m`. */
  function Caught(s: Stack, e: Exception, m: nat): (r: Stack)
    requires s.frames != [] && m < |s.tryFrames| && e.tag in s.tryFrames[m].catchers
  {
    s.(mode := Running, thrown := None, caught := Some(e), tryFrames := s.tryFrames[..m + 1],
       frames := s.frames[..Target(s.frames, s.tryFrames[m].associated) + 1],
       ip := BlockEntry(s.tryFrames[m].catchers[e.tag]))
  }

  predicate CanUnwind(s: Stack) {
    s.frames != [] && Active(s).Some? && (s.mode != Running ==> s.thrown.None?)
  }

  /** One call of unwind.  An exception out of it is not caught by anyone. */
  function Unwound(p: Stacks): (r: Outcome<Stacks>)
    requires CanUnwind(p.stack)
  {
    var s, e := p.stack, Active(p.stack).value;
    match Handler(s.tryFrames, e.tag)
    case None =>
      Ok(SwitchToTop(p.order + [s.(frames := Cleared(s.frames, 0))] + DeferredFrom(s.frames, 0)))
    case Some(m) =>
      var k := Target(s.frames, s.tryFrames[m].associated);
      if s.mode == Running then
        Ok(SwitchToTop(p.order + [Suspended(s, e, m)] + DeferredFrom(s.frames, k + 1)))
      else if s.mode != DuringUnwinding then
        Throw("stack left in an invalid state during unwinding")
      else if !AllMovesUsed(s.frames, k + 1) then
        Throw("unused pass-by-move parameter")
      else
        Ok(Stacks(Caught(s, e, m), p.order, false))
  }

  /** A stack that waits for the calls deferred by the frame it is about to leave. */
  function Leaving(s: Stack): (r: Stack)
    requires s.frames != []
  {
    s.(mode := OnFramePop, frames := Cleared(s.frames, |s.frames| - 1))
  }

  /** The stacks in line when a frame is left: a stack that is down to its last one is not among them. */
  function InLine(p: Stacks): (order: seq<Stack>)
    requires p.stack.frames != []
  {
    var s, n := p.stack, |p.stack.frames| - 1;
    p.order + (if n > 0 then [Leaving(s)] else []) + NewStacks(s.frames[n].deferred)
  }

  /** Taking the last frame off when its function returns. */
  function FramePopped(s: Stack): (r: Stack)
    requires s.frames != []
  {
    var n := |s.frames| - 1;
    var t := s.(mode := Running, frames := s.frames[..n]);
    if s.frames[n].unusedMove then t.(thrown := Some(Exception("Exception", 0)))
    else t.(ip := s.frames[n].returnAddress)
  }

  /** Giving the last frame the arguments of the prepared one, and to another function. */
  function FrameReused(s: Stack, name: string, callable: bool): (r: Stack)
    requires s.frames != [] && (callable ==> s.frameNew.Some?)
  {
    var n, t := |s.frames| - 1, s.(mode := Running);
    if !callable then t.(thrown := Some(Exception("Exception", 0)))
    else t.(frames := s.frames[n := s.frames[n].(unusedMove := s.frameNew.value.unusedMove)],
            frameNew := None, ip := FunctionEntry(name))
  }

  /** The second pass of a return, and of a tail call. */
  function FrameLeft(s: Stack, i: Instruction): (r: Stack)
    requires s.frames != [] && !i.Local? && (i.TailCall? && i.callable ==> s.frameNew.Some?)
  {
    if i.Return? then FramePopped(s) else FrameReused(s, i.name, i.callable)
  }

  /** There is no second pass over a stack that has been switched away from. */
  predicate IsLastPass(p: Stacks)
    requires p.stack.frames != []
  {
    p.stack.mode != Running || InLine(p) == []
  }

  /** Return and tail call: the first pass switches to the deferred calls of the frame, and the
      instruction is dispatched again after them. */
  function Left(p: Stacks, i: Instruction): (r: Stacks)
    requires p.stack.frames != [] && !i.Local?
    requires i.TailCall? && i.callable && IsLastPass(p) ==> p.stack.frameNew.Some?
  {
    if !IsLastPass(p) then SwitchToTop(InLine(p))
    else p.(stack := FrameLeft(if p.stack.mode == Running then Leaving(p.stack) else p.stack, i))
  }

  /** The end of a tick: a stack with an exception, or one in the middle of unwinding, is unwound. */
  function Handled(p: Stacks): (r: Outcome<Stacks>)
    requires NeedsUnwinding(p.stack) ==> CanUnwind(p.stack)
  {
    if NeedsUnwinding(p.stack) then Unwound(p) else Ok(p)
  }

  predicate NeedsUnwinding(s: Stack) {
    s.thrown.Some? || s.mode == DuringUnwinding
  }

  function Dispatched(p: Stacks, i: Instruction): (r: Stacks)
    requires Possible(p, i)
  {
    if p.stack.mode == DuringUnwinding then p
    else match i
      case Local(next, _) => p.(stack := next)
      case _ => Left(p, i)
  }

  /** Whether the instruction that the process is at after this one may be repeated in place, if it is
      the same one. */
  predicate Waits(i: Instruction) {
    i.Return? || (i.Local? && i.waits)
  }

  const UNCHANGED: Exception := Exception("InstructionUnchanged", 0)

  /** An instruction that leads to itself is an error, unless it is one that may. */
  function Checked(p: Stacks, before: Address, waits: bool): (r: Stacks) {
    if p.stack.ip == before && p.stack.mode == Running && !waits && p.stack.thrown.None? then
      p.(stack := p.stack.(thrown := Some(UNCHANGED)))
    else p
  }

  function Dropped(p: Stacks): (r: Stacks) {
    if p.stack.thrown.Some? then p.(stack := p.stack.(frameNew := None)) else p
  }

  predicate Stopped(p: Stacks) {
    p.finished || p.stack.thrown.Some?
  }

  /** A stopped process is not ticked.  A stack in the middle of leaving a frame is at its return or
      tail call.  A tail call that is carried out needs a prepared frame. */
  predicate Possible(p: Stacks, i: Instruction) {
    && !Stopped(p)
    && p.stack.frames != []
    && (i.Local? ==> p.stack.mode != OnFramePop && (i.next.mode == Running || i.next.mode == Halted))
    && (i.TailCall? && i.callable && IsLastPass(p) ==> p.stack.frameNew.Some?)
  }

  // ---------------------------------------------------------------- what every tick keeps

  /** A suspended stack has its exception at hand, and the block that catches it is innermost. */
  predicate Prepared(s: Stack) {
    && s.thrown.None? && s.caught.Some?
    && s.tryFrames != [] && s.caught.value.tag in s.tryFrames[|s.tryFrames| - 1].catchers
  }

  predicate Good(s: Stack) {
    && s.frames != [] && s.mode != Halted
    && (s.mode == OnFramePop ==> s.thrown.None?)
    && (s.mode == DuringUnwinding ==> Prepared(s))
  }

  /** A waiting stack that is not suspended has no deferred calls: it either has entered no block yet, or
      has an exception and no catcher for it. */
  predicate Waiting(s: Stack) {
    && Good(s)
    && (s.mode == Running
        ==> && (if s.thrown.Some? then Handler(s.tryFrames, s.thrown.value.tag) == None else s.tryFrames == [])
            && forall j :: 0 <= j < |s.frames| ==> s.frames[j].deferred == [])
  }

  predicate AllWait(order: seq<Stack>) {
    forall i :: 0 <= i < |order| ==> Waiting(order[i])
  }

  predicate Inv(p: Stacks) {
    AllWait(p.order) && (!p.finished ==> Good(p.stack))
  }

  lemma {:induction false} NewStacksWait(frames: seq<Frame>, i: nat)
    requires i <= |frames|
    ensures AllWait(DeferredFrom(frames, i))
    decreases |frames| - i
  {
    if i < |frames| {
      NewStacksWait(frames, i + 1);
    }
  }

  lemma {:induction false} SwitchKeepsInv(order: seq<Stack>)
    requires order != [] && AllWait(order)
    ensures Inv(SwitchToTop(order)) && Waiting(SwitchToTop(order).stack)
  {
    hide Waiting, Good;
    assert Waiting(order[|order| - 1]);
    assert forall s :: Waiting(s) ==> Good(s) by { WaitingIsGood(); }
  }

  lemma {:induction false} WaitingIsGood()
    ensures forall s :: Waiting(s) ==> Good(s)
  {
  }

  lemma {:induction false} SuspendedWaits(s: Stack, e: Exception, m: nat)
    requires s.frames != [] && m < |s.tryFrames| && e.tag in s.tryFrames[m].catchers
    ensures Waiting(Suspended(s, e, m))
  {
    hide Target, Handler;
  }

  lemma {:induction false} InLineWaits(p: Stacks)
    requires AllWait(p.order) && Good(p.stack) && p.stack.mode == Running && !Stopped(p)
    ensures AllWait(InLine(p))
  {
    hide Handler;
  }

  lemma {:induction false} LeavingKeepsInv(p: Stacks, i: Instruction)
    requires AllWait(p.order) && Good(p.stack) && p.stack.mode != DuringUnwinding && Possible(p, i) && !i.Local?
    ensures var q := Left(p, i);
            AllWait(q.order) && !q.finished && (q.stack.frames != [] ==> Good(q.stack))
  {
    hide Handler, InLine;
    if p.stack.mode == Running {
      InLineWaits(p);
      if InLine(p) != [] {
        SwitchKeepsInv(InLine(p));
      }
    }
  }

  lemma {:induction false} DispatchKeepsInv(p: Stacks, i: Instruction)
    requires Inv(p) && Possible(p, i)
    ensures var q := Dispatched(p, i);
            && AllWait(q.order) && !q.finished
            && (q.stack.mode != Halted && q.stack.frames != [] ==> Good(q.stack))
  {
    hide Left, Waiting, AllWait, InLine;
    if p.stack.mode != DuringUnwinding && !i.Local? {
      LeavingKeepsInv(p, i);
    }
  }

  /** The state in which a tick looks whether there is an exception to handle. */
  function AtEnd(p: Stacks, i: Instruction): (r: Stacks)
    requires Possible(p, i)
  {
    Dropped(Checked(Dispatched(p, i), p.stack.ip, Waits(i)))
  }

  predicate Finishes(p: Stacks, i: Instruction)
    requires Possible(p, i)
  {
    Dispatched(p, i).stack.mode == Halted || Dispatched(p, i).stack.frames == []
  }

  lemma {:induction false} EndIsGood(p: Stacks, i: Instruction)
    requires Inv(p) && Possible(p, i) && !Finishes(p, i)
    ensures var c := AtEnd(p, i);
            && AllWait(c.order) && !c.finished && Good(c.stack)
            && (NeedsUnwinding(c.stack) ==> CanUnwind(c.stack))
  {
    hide Dispatched, AllWait;
    DispatchKeepsInv(p, i);
  }

  /** One tick of a process. */
  function Ticked(p: Stacks, i: Instruction): (r: Outcome<Stacks>)
    requires Inv(p) && Possible(p, i)
  {
    if Finishes(p, i) then Ok(Dispatched(p, i).(finished := true))
    else
      EndIsGood(p, i);
      Handled(AtEnd(p, i))
  }

  /** A stopped process that has a watchdog goes on with that function, on the same stack: with the blocks
      it had entered, and the stacks in line. */
  function Revived(p: Stacks, call: Call): (r: Stacks) {
    p.(stack := p.stack.(frames := [Entered(call)], thrown := None, caught := None,
                         ip := FunctionEntry(call.functionName), frameNew := None),
       finished := false)
  }

  /** The new life starts at the entry of the watchdog function, with one frame and both slots for exceptions empty. */
  lemma {:induction false} StartsAfresh(p: Stacks, call: Call)
    requires p.stack.thrown.Some? && !p.finished && Inv(p)
    ensures var r := Revived(p, call);
            && r.order == p.order && !Stopped(r) && Inv(r)
            && r.stack == Stack([Frame(call.id, call.functionName, Nowhere, call.unusedMove, [])], p.stack.tryFrames,
                                Running, None, None, FunctionEntry(call.functionName), None)
  {
    hide Waiting;
  }

  predicate CanHappen(p: Stacks, ev: Event) {
    match ev
    case Tick(i) => Possible(p, i)
    case Suspend(next) => !Stopped(p) && p.stack.mode == next.mode == Running && next.thrown.None? && next.frames != []
    case ForeignThrow(_, _) => !Stopped(p) && p.stack.mode == Running
    case Become(_) => p.stack.thrown.Some? && !p.finished
  }

  function Raised(p: Stacks, e: Exception): (r: Stacks) {
    p.(stack := p.stack.(thrown := Some(e)))
  }

  function Happened(p: Stacks, ev: Event): (r: Outcome<Stacks>)
    requires Inv(p) && CanHappen(p, ev)
  {
    match ev
    case Tick(i) => Ticked(p, i)
    case Suspend(next) => Ok(p.(stack := next))
    case ForeignThrow(e, known) => if known then Unwound(Raised(p, e)) else Ok(Raised(p, e))
    case Become(call) => Ok(Revived(p, call))
  }

  lemma {:induction false} UnwindKeepsInv(p: Stacks)
    requires AllWait(p.order) && !p.finished && Good(p.stack) && NeedsUnwinding(p.stack)
    ensures CanUnwind(p.stack)
    ensures var r := Unwound(p);
            && (r.Ok? ==> Inv(r.value) && !r.value.finished && p.order <= r.value.order)
            && (r.Throw? ==> r.tag == "unused pass-by-move parameter")
  {
    var s, e := p.stack, Active(p.stack).value;
    match Handler(s.tryFrames, e.tag)
    case None =>
      var t := s.(frames := Cleared(s.frames, 0));
      assert Waiting(t);
      NewStacksWait(s.frames, 0);
      SwitchKeepsInv(p.order + [t] + DeferredFrom(s.frames, 0));
    case Some(m) =>
      hide Handler, DeferredFrom;
      var k := Target(s.frames, s.tryFrames[m].associated);
      if s.mode == Running {
        SuspendedWaits(s, e, m);
        NewStacksWait(s.frames, k + 1);
        SwitchKeepsInv(p.order + [Suspended(s, e, m)] + DeferredFrom(s.frames, k + 1));
      }
  }

  /** Every tick keeps the invariant; the only exception to leave a tick is that of a frame
      discarded with an argument passed by move that nobody took. */
  lemma {:induction false} TickKeepsInv(p: Stacks, i: Instruction)
    requires Inv(p) && Possible(p, i)
    ensures var r := Ticked(p, i);
            if r.Ok? then Inv(r.value) else r.tag == "unused pass-by-move parameter"
  {
    hide Dispatched, Unwound, Waiting, Handler, AtEnd;
    if Finishes(p, i) {
      DispatchKeepsInv(p, i);
    } else {
      EndIsGood(p, i);
      if NeedsUnwinding(AtEnd(p, i).stack) {
        UnwindKeepsInv(AtEnd(p, i));
      }
    }
  }

  lemma {:induction false} EventKeepsInv(p: Stacks, ev: Event)
    requires Inv(p) && CanHappen(p, ev)
    ensures Happened(p, ev).Ok? ==> Inv(Happened(p, ev).value)
  {
    hide Ticked, Waiting, Unwound;
    if ev.Tick? {
      TickKeepsInv(p, ev.i);
    } else if ev.ForeignThrow? {
      UnwindKeepsInv(Raised(p, ev.e));
    }
  }

  // ---------------------------------------------------------------- whole runs

  /** The process can go from `p` to `q` by these events. */
  ghost predicate Runs(p: Stacks, events: seq<Event>, q: Stacks)
    decreases events
  {
    if events == [] then q == p
    else && Inv(p) && CanHappen(p, events[0]) && Happened(p, events[0]).Ok?
         && Runs(Happened(p, events[0]).value, events[1..], q)
  }

  /** ... and does so that only the last of them, in state `l`, leaves no more than `j` stacks waiting. */
  ghost predicate ComesBack(p: Stacks, j: nat, events: seq<Event>, l: Stacks, q: Stacks)
    decreases events
  {
    && events != [] && |p.order| > j && Inv(p) && CanHappen(p, events[0]) && Happened(p, events[0]).Ok?
    && var r := Happened(p, events[0]).value;
       if |events| == 1 then |r.order| <= j && l == p && q == r else ComesBack(r, j, events[1..], l, q)
  }

  /** Every state of every process is good, so unwinding always finds its exception, and never
      finds the stack in an invalid state. */
  lemma {:induction false} AlwaysGood(call: Call, events: seq<Event>, q: Stacks)
    requires Runs(Stacks(NewStack(call), [], false), events, q)
    ensures Inv(q)
  {
    RunKeepsInv(Stacks(NewStack(call), [], false), events, q);
  }

  lemma {:induction false} RunKeepsInv(p: Stacks, events: seq<Event>, q: Stacks)
    requires Inv(p) && Runs(p, events, q)
    ensures Inv(q)
    decreases events
  {
    hide Inv, CanHappen, Happened;
    if events != [] {
      EventKeepsInv(p, events[0]);
      RunKeepsInv(Happened(p, events[0]).value, events[1..], q);
    }
  }

  /** A tail call that switches to a stack at the same address looks like an instruction that leads to
      itself. */
  predicate Clashes(s: Stack, l: Stacks, ev: Event) {
    ev.Tick? && ev.i.TailCall? && s.mode == Running && s.thrown.None? && s.ip == l.stack.ip
  }

  /** What becomes of a waiting stack in the tick that returns to it. */
  function Woken(s: Stack, below: seq<Stack>, clash: bool): (r: Outcome<Stacks>)
    requires Waiting(s) && (clash ==> s.mode == Running)
  {
    Handled(Dropped(Stacks(if clash then s.(thrown := Some(UNCHANGED)) else s, below, false)))
  }

  lemma {:induction false} InnermostHandles(tryFrames: seq<TryFrame>, tag: string)
    requires tryFrames != [] && tag in tryFrames[|tryFrames| - 1].catchers
    ensures Handler(tryFrames, tag) == Some(|tryFrames| - 1)
  {
  }

  lemma {:induction false} UncaughtStays(s: Stack, below: seq<Stack>)
    requires CanUnwind(s) && s.mode == Running && Handler(s.tryFrames, s.thrown.value.tag) == None
    requires forall j :: 0 <= j < |s.frames| ==> s.frames[j].deferred == []
    ensures Unwound(Stacks(s, below, false)) == Ok(Stacks(s, below, false))
  {
    NothingDeferred(s.frames, 0);
    assert below + [s] + [] == below + [s];
    assert (below + [s])[..|below|] == below;
  }

  /** Coming back takes nothing from the stacks below; and a stack that is not suspended is found as it
      was left, except that the exception of a clash is raised on it. */
  lemma {:induction false} WokenStays(s: Stack, below: seq<Stack>, clash: bool)
    requires Waiting(s) && (clash ==> s.mode == Running && s.thrown.None?) && Woken(s, below, clash).Ok?
    ensures Woken(s, below, clash).value.order == below
    ensures clash ==> Woken(s, below, clash).value == Stacks(s.(thrown := Some(UNCHANGED), frameNew := None), below, false)
    ensures !clash && s.mode != DuringUnwinding && (s.thrown.None? || s.frameNew.None?)
            ==> Woken(s, below, clash).value == Stacks(s, below, false)
  {
    if s.mode == DuringUnwinding {
      InnermostHandles(s.tryFrames, s.caught.value.tag);
    } else if clash {
      UncaughtStays(s.(thrown := Some(UNCHANGED), frameNew := None), below);
    } else if s.thrown.Some? {
      UncaughtStays(s.(frameNew := None), below);
    }
  }

  lemma {:induction false} LeavingComesBack(p: Stacks, i: Instruction)
    requires Inv(p) && Possible(p, i) && !i.Local? && p.stack.mode != DuringUnwinding
    ensures var q := Left(p, i);
            || p.order <= q.order
            || (p.order != [] && q == SwitchToTop(p.order))
  {
    hide Inv, Cleared, NewStack, FrameLeft;
    var s, n := p.stack, |p.stack.frames| - 1;
    var more := (if n > 0 then [Leaving(s)] else []) + NewStacks(s.frames[n].deferred);
    assert InLine(p) == p.order + more;
    if more == [] {
      assert InLine(p) == p.order;
    }
  }

  /** What a tick that switches to the last waiting stack finds. */
  lemma {:induction false} SwitchingTick(p: Stacks, i: Instruction)
    requires Inv(p) && Possible(p, i) && !i.Local? && p.order != [] && Dispatched(p, i) == SwitchToTop(p.order)
    requires p.stack.mode != DuringUnwinding
    ensures var s := p.order[|p.order| - 1];
            && Waiting(s) && !Finishes(p, i)
            && Ticked(p, i) == Woken(s, p.order[..|p.order| - 1], Clashes(s, p, Tick(i)))
  {
    hide Unwound, Handler, Dispatched;
    assert Waiting(p.order[|p.order| - 1]);
  }

  /** An event leaves the waiting stacks alone, or returns to the last of them. */
  lemma {:induction false} EventComesBack(p: Stacks, ev: Event)
    requires Inv(p) && CanHappen(p, ev) && Happened(p, ev).Ok?
    ensures var r := Happened(p, ev).value;
            || p.order <= r.order
            || (p.order != [] && var s, below := p.order[|p.order| - 1], p.order[..|p.order| - 1];
                && Waiting(s) && Woken(s, below, Clashes(s, p, ev)) == Ok(r) && r.order == below)
  {
    hide Unwound, Waiting, Handler, Left, Woken, Clashes;
    if ev.Tick? {
      var i := ev.i;
      if p.stack.mode != DuringUnwinding && !i.Local? {
        LeavingComesBack(p, i);
        if !(p.order <= Dispatched(p, i).order) {
          SwitchingTick(p, i);
          WakesLast(p, ev);
          return;
        }
      }
      KeepsWaiting(p, i);
    } else if ev.ForeignThrow? {
      UnwindKeepsInv(Raised(p, ev.e));
    }
  }

  lemma {:induction false} WakesLast(p: Stacks, ev: Event)
    requires p.order != [] && Waiting(p.order[|p.order| - 1])
    requires var s := p.order[|p.order| - 1]; Woken(s, p.order[..|p.order| - 1], Clashes(s, p, ev)).Ok?
    ensures var s, below := p.order[|p.order| - 1], p.order[..|p.order| - 1];
            Woken(s, below, Clashes(s, p, ev)).value.order == below
  {
    hide Waiting, Woken;
    var s, below := p.order[|p.order| - 1], p.order[..|p.order| - 1];
    WokenStays(s, below, Clashes(s, p, ev));
  }

  lemma {:induction false} KeepsWaiting(p: Stacks, i: Instruction)
    requires Inv(p) && Possible(p, i) && Ticked(p, i).Ok? && p.order <= Dispatched(p, i).order
    ensures p.order <= Ticked(p, i).value.order
  {
    hide Unwound, Waiting, Handler, Dispatched, Good, NeedsUnwinding;
    if !Finishes(p, i) {
      EndIsGood(p, i);
      assert AtEnd(p, i).order == Dispatched(p, i).order;
      if NeedsUnwinding(AtEnd(p, i).stack) {
        UnwindKeepsInv(AtEnd(p, i));
      }
    }
  }

  /** Deferred calls nest: whatever code runs above them, the stacks that wait are not touched, and when the
      run first comes back to one, in state `l`, it finds it just as it was left, but for a clash. */
  lemma {:induction false} ReturnsToWaiting(p: Stacks, j: nat, events: seq<Event>, l: Stacks, q: Stacks)
    requires ComesBack(p, j, events, l, q)
    ensures events != [] && |p.order| > j && Waiting(p.order[j]) && l.order == p.order[..j + 1]
    ensures Woken(p.order[j], p.order[..j], Clashes(p.order[j], l, events[|events| - 1])) == Ok(q)
    decreases events
  {
    hide Happened, CanHappen, Inv, Woken, Waiting, Clashes;
    EventComesBack(p, events[0]);
    var r := Happened(p, events[0]).value;
    if p.order <= r.order || |p.order| > j + 1 {
      assert r.order[j] == p.order[j] && r.order[..j] == p.order[..j] && r.order[..j + 1] == p.order[..j + 1];
      ReturnsToWaiting(r, j, events[1..], l, q);
    } else {
      assert |events| == 1;
      assert p.order[..j + 1] == p.order;
    }
  }

  /** A stack with nothing to unwind is found as it was left if and only if the last event is not a tail call
      from its very address. */
  lemma {:induction false} FoundAsLeftIff(p: Stacks, j: nat, events: seq<Event>, l: Stacks, q: Stacks)
    requires ComesBack(p, j, events, l, q) && p.order[j].mode != DuringUnwinding && p.order[j].thrown.None?
    ensures events != [] && q.order == p.order[..j] && l.order == p.order[..j + 1]
    ensures q.stack == p.order[j]
            <==> !(p.order[j].mode == Running && events[|events| - 1].Tick? && events[|events| - 1].i.TailCall?
                   && l.stack.ip == p.order[j].ip)
    ensures q.stack != p.order[j] ==> q.stack == p.order[j].(thrown := Some(UNCHANGED), frameNew := None)
  {
    hide ComesBack, Woken, Waiting;
    ReturnsToWaiting(p, j, events, l, q);
    WokenStays(p.order[j], p.order[..j], Clashes(p.order[j], l, events[|events| - 1]));
  }

  /** A function that begins with a tail call is deferred twice: the second call takes down the first one,
      before it has done anything. */
  lemma {:induction false} TailCallClash(call: Call, name: string)
    ensures var p := Stacks(NewStack(call), [NewStack(call)], false);
            && Inv(p) && Possible(p, TailCall(name, true))
            && Ticked(p, TailCall(name, true)) == Ok(Stacks(NewStack(call).(thrown := Some(UNCHANGED)), [], false))
  {
    var p, i := Stacks(NewStack(call), [NewStack(call)], false), TailCall(name, true);
    assert p.order[..0] == [];
    assert InLine(p) == p.order;
    UncaughtStays(NewStack(call).(thrown := Some(UNCHANGED)), []);
  }

  // ---------------------------------------------------------------- catching an exception

  /** The first phase keeps the frames, but takes their deferred calls from those above the target. */
  lemma {:induction false} FirstPhase(s: Stack, order: seq<Stack>, e: Exception, m: nat)
    requires s.frames != [] && s.mode == Running && s.thrown == Some(e) && Handler(s.tryFrames, e.tag) == Some(m)
    ensures var k, r := Target(s.frames, s.tryFrames[m].associated), Unwound(Stacks(s, order, false));
            && r.Ok? && !r.value.finished
            && r.value.order + [r.value.stack] == order + [Suspended(s, e, m)] + DeferredFrom(s.frames, k + 1)
  {
    hide Suspended, DeferredFrom, Handler, Target;
  }

  lemma {:induction false} TargetIsUnique(frames: seq<Frame>, id: nat, k: nat)
    requires k < |frames| && (frames[k].id == id || k == 0)
    requires forall j :: k < j < |frames| ==> frames[j].id != id
    ensures Target(frames, id) == k
  {
    var t := Target(frames, id);
    hide Target;
    assert frames[t].id == id || t == 0;
  }

  /** Losing its deferred calls does not change where a stack is unwound to. */
  lemma {:induction false} SameTarget(frames: seq<Frame>, id: nat)
    requires frames != []
    ensures var k := Target(frames, id);
            && Target(Cleared(frames, k + 1), id) == k
            && Cleared(frames, k + 1)[..k + 1] == frames[..k + 1]
            && (AllMovesUsed(Cleared(frames, k + 1), k + 1) <==> AllMovesUsed(frames, k + 1))
  {
    var k := Target(frames, id);
    hide Target;
    var c := Cleared(frames, k + 1);
    assert forall j :: 0 <= j < |frames| ==> c[j].id == frames[j].id && c[j].unusedMove == frames[j].unusedMove;
    TargetIsUnique(c, id, k);
  }

  /** The second phase catches the exception if and only if no discarded frame has an argument
      passed by move that nobody took. */
  lemma {:induction false} SecondPhase(s: Stack, order: seq<Stack>, e: Exception, m: nat)
    requires s.frames != [] && m < |s.tryFrames| && e.tag in s.tryFrames[m].catchers
    ensures Waiting(Suspended(s, e, m))
    ensures Woken(Suspended(s, e, m), order, false)
            == if AllMovesUsed(s.frames, Target(s.frames, s.tryFrames[m].associated) + 1)
               then Ok(Stacks(Caught(s, e, m), order, false)) else Throw("unused pass-by-move parameter")
  {
    SuspendedWaits(s, e, m);
    InnermostHandles(s.tryFrames[..m + 1], e.tag);
    SameTarget(s.frames, s.tryFrames[m].associated);
    hide Target, Handler, Cleared, AllMovesUsed, DeferredFrom, Waiting;
    var t := Suspended(s, e, m);
    assert t.tryFrames[m] == s.tryFrames[m] && t.tryFrames[..m + 1] == s.tryFrames[..m + 1];
    assert Caught(t, e, m) == Caught(s, e, m);
    assert Handler(t.tryFrames, e.tag) == Some(m);
  }

  /** Until `j` stacks are left waiting, and at least for one more tick. */
  ghost predicate Resumes(p: Stacks, j: nat, events: seq<Event>, l: Stacks, q: Stacks) {
    || ComesBack(p, j, events, l, q)
    || (|p.order| == j && |events| == 1 && events[0].Tick? && Inv(p)
        && Possible(p, events[0].i) && Ticked(p, events[0].i) == Ok(q))
  }

  /** The tick ends with `e` thrown on the active stack: by the instruction, or because it leads to itself. */
  predicate Throws(p: Stacks, i: Instruction, e: Exception) {
    && Inv(p) && Possible(p, i) && !Finishes(p, i)
    && AtEnd(p, i).stack.mode == Running && AtEnd(p, i).stack.thrown == Some(e)
  }

  lemma {:induction false} ThrowingTick(p: Stacks, i: Instruction, e: Exception)
    requires Throws(p, i, e)
    ensures Inv(p) && Possible(p, i)
    ensures var c := AtEnd(p, i);
            && c == Stacks(c.stack, c.order, false) && Ticked(p, i) == Unwound(c)
            && c.stack.frames != [] && c.stack.mode == Running && c.stack.thrown == Some(e) && c.stack.frameNew == None
  {
    hide Unwound, Dispatched;
    EndIsGood(p, i);
  }

  /** Unwinding is exact.  A tick throws an exception on a stack, the innermost block with a catcher for it is
      `m`, and the block was entered in frame `k`: once the deferred calls have run, whatever they did,
      the stack has just the frames 0 to `k` and the blocks up to `m`, as they were; the exception
      is in the slot of caught ones, and execution continues in the block of the catcher. */
  lemma {:induction false} CaughtExactly(p: Stacks, i: Instruction, e: Exception, m: nat,
                                         r: Stacks, events: seq<Event>, l: Stacks, q: Stacks)
    requires Throws(p, i, e) && Ticked(p, i) == Ok(r)
    requires Handler(AtEnd(p, i).stack.tryFrames, e.tag) == Some(m)
    requires Resumes(r, |AtEnd(p, i).order|, events, l, q)
    ensures var s := AtEnd(p, i).stack;
            s.frames != [] && var k := Target(s.frames, s.tryFrames[m].associated);
            && q.order == AtEnd(p, i).order && !q.finished
            && q.stack == Stack(s.frames[..k + 1], s.tryFrames[..m + 1], Running, None, Some(e),
                                BlockEntry(s.tryFrames[m].catchers[e.tag]), None)
            && AllMovesUsed(s.frames, k + 1)
  {
    hide *;
    ThrowingTick(p, i, e);
    var s, order := AtEnd(p, i).stack, AtEnd(p, i).order;
    var k := Target(s.frames, s.tryFrames[m].associated);
    FirstPhase(s, order, e, m);
    SecondPhase(s, order, e, m);
    SplitOff(r.order, r.stack, order, Suspended(s, e, m), DeferredFrom(s.frames, k + 1));
    SuspendedMode(s, e, m);
    if ComesBack(r, |order|, events, l, q) {
      ReturnsToWaiting(r, |order|, events, l, q);
      OnlyRunningClashes(r.order[|order|], l, events[|events| - 1]);
    } else {
      LastTick(r, |order|, events, l, q);
    }
    CaughtFields(s, e, m);
  }

  lemma {:induction false} OnlyRunningClashes(s: Stack, l: Stacks, ev: Event)
    ensures Clashes(s, l, ev) ==> s.mode == Running && s.thrown.None?
  {
  }

  lemma {:induction false} SuspendedMode(s: Stack, e: Exception, m: nat)
    requires s.frames != [] && m < |s.tryFrames| && e.tag in s.tryFrames[m].catchers
    ensures Suspended(s, e, m).mode == DuringUnwinding
  {
  }

  lemma {:induction false} CaughtFields(s: Stack, e: Exception, m: nat)
    requires s.frames != [] && m < |s.tryFrames| && e.tag in s.tryFrames[m].catchers && s.frameNew == None
    ensures Caught(s, e, m)
            == Stack(s.frames[..Target(s.frames, s.tryFrames[m].associated) + 1], s.tryFrames[..m + 1],
                     Running, None, Some(e), BlockEntry(s.tryFrames[m].catchers[e.tag]), None)
  {
  }

  lemma {:induction false} SplitOff<T>(order: seq<T>, last: T, below: seq<T>, x: T, above: seq<T>)
    requires order + [last] == below + [x] + above
    ensures |order| == |below| + |above|
    ensures if above == [] then order == below && last == x else order[|below|] == x && order[..|below|] == below
  {
    var all := below + [x] + above;
    assert |all| == |order| + 1;
    assert all[|below|] == x && all[..|below|] == below;
    assert all[..|order|] == order;
  }

  lemma {:induction false} LastTick(r: Stacks, j: nat, events: seq<Event>, l: Stacks, q: Stacks)
    requires Resumes(r, j, events, l, q) && !ComesBack(r, j, events, l, q)
    requires |r.order| == j ==> Waiting(r.stack) && r.stack.mode == DuringUnwinding
    ensures Waiting(r.stack) && Woken(r.stack, r.order, false) == Ok(q) && |r.order| == j
  {
    hide ComesBack, Ticked, Woken, Waiting;
    ResumedTick(r, events[0].i);
  }

  /** A tick of a suspended stack dispatches nothing. */
  lemma {:induction false} ResumedTick(p: Stacks, i: Instruction)
    requires Inv(p) && Possible(p, i) && p.stack.mode == DuringUnwinding && Waiting(p.stack)
    ensures Ticked(p, i) == Woken(p.stack, p.order, false)
  {
    hide Unwound;
  }

  lemma {:induction false} DeferredAreNew(frames: seq<Frame>, i: nat, t: nat)
    requires i <= |frames| && t < |DeferredFrom(frames, i)|
    ensures var x := DeferredFrom(frames, i)[t];
            && x.mode == Running && x.thrown.None? && x.frameNew.None?
            && |x.frames| == 1 && x.ip == FunctionEntry(x.frames[0].functionName)
    decreases |frames| - i
  {
    if i < |frames| && t >= |frames[i].deferred| {
      DeferredAreNew(frames, i + 1, t - |frames[i].deferred|);
    }
  }

  lemma {:induction false} SplitAt<T>(order: seq<T>, last: T, below: seq<T>, x: T, above: seq<T>, t: nat)
    requires order + [last] == below + [x] + above && t < |above|
    ensures |order| == |below| + |above|
    ensures if t == |above| - 1 then last == above[t] && order == below + [x] + above[..t]
            else order[|below| + 1 + t] == above[t] && order[..|below| + 1 + t] == below + [x] + above[..t]
  {
    var all, j := below + [x] + above, |below| + 1 + t;
    assert |all| == |order| + 1;
    assert all[j] == above[t] && all[..j] == below + [x] + above[..t];
    assert all[..|order|] == order;
  }

  /** The calls deferred by the frames that are discarded when block `m` catches. */
  function DiscardedCalls(s: Stack, m: nat): (calls: seq<Stack>)
    requires s.frames != [] && m < |s.tryFrames|
  {
    DeferredFrom(s.frames, Target(s.frames, s.tryFrames[m].associated) + 1)
  }

  lemma {:induction false} DiscardedCallsFrom(s: Stack, m: nat)
    requires s.frames != [] && m < |s.tryFrames|
    ensures DiscardedCalls(s, m) == DeferredFrom(s.frames, Target(s.frames, s.tryFrames[m].associated) + 1)
  {
  }

  /** The deferred calls of the discarded frames run one after the other: each one comes to its turn, from
      the entry of its function, when all those after it have finished; the last one at once.  It
      starts, unless the one before it has finished with a tail call from that very entry: then it is
      stopped before it has done anything. */
  lemma {:induction false} DeferredRunInTurn(p: Stacks, i: Instruction, e: Exception, m: nat, t: nat,
                                             r: Stacks, events: seq<Event>, l: Stacks, q: Stacks)
    requires Throws(p, i, e) && Ticked(p, i) == Ok(r)
    requires Handler(AtEnd(p, i).stack.tryFrames, e.tag) == Some(m) && AtEnd(p, i).stack.frames != []
    requires t < |DiscardedCalls(AtEnd(p, i).stack, m)|
    requires if t == |DiscardedCalls(AtEnd(p, i).stack, m)| - 1 then q == r
             else ComesBack(r, |AtEnd(p, i).order| + 1 + t, events, l, q)
    ensures var s, calls := AtEnd(p, i).stack, DiscardedCalls(AtEnd(p, i).stack, m);
            && q.order == AtEnd(p, i).order + [Suspended(s, e, m)] + calls[..t] && !q.finished
            && (q.stack == calls[t]
                <==> t == |calls| - 1
                     || !(events[|events| - 1].Tick? && events[|events| - 1].i.TailCall? && l.stack.ip == calls[t].ip))
            && (q.stack != calls[t] ==> q.stack == calls[t].(thrown := Some(UNCHANGED)))
  {
    hide *;
    ThrowingTick(p, i, e);
    var s, order := AtEnd(p, i).stack, AtEnd(p, i).order;
    DiscardedCallsFrom(s, m);
    var calls := DiscardedCalls(s, m);
    var k := Target(s.frames, s.tryFrames[m].associated);
    FirstPhase(s, order, e, m);
    SplitAt(r.order, r.stack, order, Suspended(s, e, m), calls, t);
    if t < |calls| - 1 {
      var j := |order| + 1 + t;
      DeferredAreNew(s.frames, k + 1, t);
      FoundAsLeftIff(r, j, events, l, q);
      ReturnsToWaiting(r, j, events, l, q);
      WokenIsAlive(r.order[j], r.order[..j], Clashes(r.order[j], l, events[|events| - 1]));
    }
  }

  lemma {:induction false} WokenIsAlive(s: Stack, below: seq<Stack>, clash: bool)
    requires Waiting(s) && (clash ==> s.mode == Running)
    ensures Woken(s, below, clash).Ok? ==> !Woken(s, below, clash).value.finished
  {
    hide Handler, DeferredFrom, Target;
  }

  /** An exception that no block catches: the frames are all kept, their deferred calls run, and then
      the process is stopped with the very same exception. */
  lemma {:induction false} UncaughtStops(p: Stacks, i: Instruction, e: Exception,
                                         r: Stacks, events: seq<Event>, l: Stacks, q: Stacks)
    requires Throws(p, i, e) && Ticked(p, i) == Ok(r)
    requires Handler(AtEnd(p, i).stack.tryFrames, e.tag) == None
    requires if DeferredFrom(AtEnd(p, i).stack.frames, 0) == [] then q == r
             else ComesBack(r, |AtEnd(p, i).order|, events, l, q)
    ensures var c := AtEnd(p, i);
            && q.order == c.order && !q.finished && Stopped(q)
            && |q.stack.frames| == |c.stack.frames|
            && (forall f :: 0 <= f < |c.stack.frames| ==> q.stack.frames[f] == c.stack.frames[f].(deferred := []))
            && q.stack == Stack(q.stack.frames, c.stack.tryFrames, Running, Some(e), c.stack.caught, c.stack.ip, None)
  {
    hide *;
    ThrowingTick(p, i, e);
    var s, order := AtEnd(p, i).stack, AtEnd(p, i).order;
    var t, calls := s.(frames := Cleared(s.frames, 0)), DeferredFrom(s.frames, 0);
    UncaughtPhase(s, order, e);
    SplitOff(r.order, r.stack, order, t, calls);
    if calls != [] {
      ReturnsToWaiting(r, |order|, events, l, q);
      OnlyRunningClashes(t, l, events[|events| - 1]);
      WokenStays(t, order, false);
    }
    IsStopped(q);
    AllCleared(s.frames);
  }

  lemma {:induction false} AllCleared(frames: seq<Frame>)
    ensures |Cleared(frames, 0)| == |frames|
    ensures forall f :: 0 <= f < |frames| ==> Cleared(frames, 0)[f] == frames[f].(deferred := [])
  {
  }

  lemma {:induction false} UncaughtPhase(s: Stack, order: seq<Stack>, e: Exception)
    requires s.frames != [] && s.mode == Running && s.thrown == Some(e) && Handler(s.tryFrames, e.tag) == None
    ensures var r := Unwound(Stacks(s, order, false));
            && r.Ok? && !r.value.finished
            && r.value.order + [r.value.stack]
               == order + [s.(frames := Cleared(s.frames, 0))] + DeferredFrom(s.frames, 0)
  {
    hide Cleared, DeferredFrom, Handler;
  }

  lemma {:induction false} IsStopped(p: Stacks)
    requires p.stack.thrown.Some?
    ensures Stopped(p)
  {
  }

  /** A function that returns, or makes a tail call, from a frame other than the last: the calls deferred by the
      frame run first, whatever they do, and then the stack is found as it was left. */
  lemma {:induction false} LeavesExactly(p: Stacks, i: Instruction, r: Stacks, events: seq<Event>, l: Stacks, q: Stacks)
    requires Inv(p) && Possible(p, i) && !i.Local? && p.stack.mode == Running && |p.stack.frames| > 1
    requires Ticked(p, i) == Ok(r)
    requires if p.stack.frames[|p.stack.frames| - 1].deferred == [] then q == r
             else ComesBack(r, |p.order|, events, l, q)
    ensures var n := |p.stack.frames| - 1;
            && q == Stacks(Leaving(p.stack), p.order, false)
            && q.stack == p.stack.(mode := OnFramePop, frames := p.stack.frames[..n] + [p.stack.frames[n].(deferred := [])])
  {
    var s, n := p.stack, |p.stack.frames| - 1;
    var t, calls := Leaving(s), NewStacks(s.frames[n].deferred);
    LeavingSwitches(p, i, r);
    var top := InLine(p)[|InLine(p)| - 1];
    SplitOff(r.order, top, p.order, t, calls);
    LeavingMode(s);
    assert Cleared(s.frames, n) == s.frames[..n] + [s.frames[n].(deferred := [])];
    hide *;
    if calls != [] {
      ReturnsToWaiting(r, |p.order|, events, l, q);
      OnlyRunningClashes(t, l, events[|events| - 1]);
      WokenStays(t, p.order, false);
    }
  }

  lemma {:induction false} LeavingMode(s: Stack)
    requires s.frames != []
    ensures Leaving(s).mode == OnFramePop && Leaving(s).thrown == s.thrown
  {
  }

  lemma {:induction false} LeavingSwitches(p: Stacks, i: Instruction, r: Stacks)
    requires Inv(p) && Possible(p, i) && !i.Local? && p.stack.mode == Running && |p.stack.frames| > 1
    requires Ticked(p, i) == Ok(r)
    ensures InLine(p) != [] && r.order == InLine(p)[..|InLine(p)| - 1] && p.stack.thrown.None?
    ensures p.stack.frames[|p.stack.frames| - 1].deferred == [] ==> r == SwitchToTop(InLine(p))
  {
    hide Unwound, Handler, Waiting, Cleared;
    var q := SwitchToTop(InLine(p));
    assert Dispatched(p, i) == q;
    assert q.stack.thrown.None? && q.stack.mode != DuringUnwinding && q.stack.mode != Halted && q.stack.frames != [];
    var c := AtEnd(p, i);
    if c.stack.thrown.Some? {
      UncaughtStays(c.stack, c.order);
    }
  }

  /** After that a return takes off the frame and no more, and goes to the address that the frame was called from,
      or throws exactly for an unused argument; a tail call keeps all frames, gives the last one the new
      arguments, and goes to the function called.  All else is as it was before the first pass. */
  lemma {:induction false} LeavesFrame(p: Stacks, i: Instruction)
    requires p.stack.frames != [] && !Stopped(p) && p.stack.mode == Running && !i.Local?
    requires i.TailCall? ==> i.callable && p.stack.frameNew.Some?
    ensures var q, s, n := Stacks(Leaving(p.stack), p.order, false), p.stack, |p.stack.frames| - 1;
            && Possible(q, i)
            && Dispatched(q, i)
               == Stacks(match i
                         case Return =>
                           if s.frames[n].unusedMove then
                             Stack(s.frames[..n], s.tryFrames, Running, Some(Exception("Exception", 0)), s.caught,
                                   s.ip, s.frameNew)
                           else
                             Stack(s.frames[..n], s.tryFrames, Running, None, s.caught,
                                   s.frames[n].returnAddress, s.frameNew)
                         case _ =>
                           Stack(s.frames[..n] + [s.frames[n].(deferred := [], unusedMove := s.frameNew.value.unusedMove)],
                                 s.tryFrames, Running, None, s.caught, FunctionEntry(i.name), None),
                         p.order, false)
  {
    var s, n := p.stack, |p.stack.frames| - 1;
    assert Cleared(s.frames, n)[..n] == s.frames[..n];
    assert Cleared(s.frames, n)[n] == s.frames[n].(deferred := []);
  }

  /** A call and its return, over a whole run: from the return instruction, through any run of the calls deferred by
      the frame, to the tick that carries the return out.  The caller goes on where it called, with its own
      frames, blocks and slots, unless an argument passed by move is left unused. */
  lemma {:induction false} ReturnsToCaller(p: Stacks, r: Stacks, events: seq<Event>, l: Stacks, q: Stacks)
    requires Inv(p) && Possible(p, Return) && p.stack.mode == Running && |p.stack.frames| > 1
    requires Ticked(p, Return) == Ok(r)
    requires if p.stack.frames[|p.stack.frames| - 1].deferred == [] then q == r
             else ComesBack(r, |p.order|, events, l, q)
    requires !p.stack.frames[|p.stack.frames| - 1].unusedMove
    ensures var s, n := p.stack, |p.stack.frames| - 1;
            && Inv(q) && Possible(q, Return)
            && Ticked(q, Return)
               == Ok(Stacks(Stack(s.frames[..n], s.tryFrames, Running, None, s.caught,
                                  s.frames[n].returnAddress, s.frameNew),
                            p.order, false))
  {
    hide ComesBack, Ticked;
    LeavesExactly(p, Return, r, events, l, q);
    LeavesFrame(p, Return);
    hide *;
    OnWayBack(p, q);
    QuietTick(q, Return);
  }

  /** The same for a tail call, which goes to the entry of the function called; if that is where it was made, it looks
      like an instruction that leads to itself. */
  lemma {:induction false} TailCallsExactly(p: Stacks, name: string, r: Stacks, events: seq<Event>, l: Stacks, q: Stacks)
    requires Inv(p) && Possible(p, TailCall(name, true)) && p.stack.mode == Running && |p.stack.frames| > 1
    requires p.stack.frameNew.Some? && Ticked(p, TailCall(name, true)) == Ok(r)
    requires if p.stack.frames[|p.stack.frames| - 1].deferred == [] then q == r
             else ComesBack(r, |p.order|, events, l, q)
    ensures var s, n, i := p.stack, |p.stack.frames| - 1, TailCall(name, true);
            && Inv(q) && Possible(q, i)
            && if s.ip == FunctionEntry(name) then AtEnd(q, i).stack.thrown == Some(UNCHANGED)
               else Ticked(q, i)
                    == Ok(Stacks(Stack(s.frames[..n]
                                       + [s.frames[n].(deferred := [], unusedMove := s.frameNew.value.unusedMove)],
                                       s.tryFrames, Running, None, s.caught, FunctionEntry(name), None),
                                 p.order, false))
  {
    hide ComesBack, Ticked;
    var i := TailCall(name, true);
    LeavesExactly(p, i, r, events, l, q);
    LeavesFrame(p, i);
    assert q.stack.ip == p.stack.ip;
    hide Dispatched, Leaving, Inv, Possible;
    OnWayBack(p, q);
    if p.stack.ip != FunctionEntry(name) {
      QuietTick(q, i);
    }
  }

  /** The calls deferred by a frame that is left come to their turn once each, the last one first, from the entries of
      their functions; and they start, but for the clash of a tail call. */
  lemma {:induction false} LeavingRunsInTurn(p: Stacks, i: Instruction, t: nat,
                                             r: Stacks, events: seq<Event>, l: Stacks, q: Stacks)
    requires Inv(p) && Possible(p, i) && !i.Local? && p.stack.mode == Running && Ticked(p, i) == Ok(r)
    requires t < |p.stack.frames[|p.stack.frames| - 1].deferred|
    requires var n := |p.stack.frames| - 1;
             if t == |p.stack.frames[n].deferred| - 1 then q == r
             else ComesBack(r, |p.order| + (if n > 0 then 1 else 0) + t, events, l, q)
    ensures var n := |p.stack.frames| - 1;
            var calls := p.stack.frames[n].deferred;
            var entry := FunctionEntry(calls[t].functionName);
            && q.order == p.order + (if n > 0 then [Leaving(p.stack)] else []) + NewStacks(calls[..t])
            && (q.stack == NewStack(calls[t])
                <==> if t == |calls| - 1 then !(i.TailCall? && p.stack.ip == entry)
                     else !(events[|events| - 1].Tick? && events[|events| - 1].i.TailCall? && l.stack.ip == entry))
            && (q.stack != NewStack(calls[t]) ==> q.stack == NewStack(calls[t]).(thrown := Some(UNCHANGED)))
  {
    hide *;
    PossibleHasFrames(p, i);
    var n := |p.stack.frames| - 1;
    var calls := p.stack.frames[n].deferred;
    var below := p.order + if n > 0 then [Leaving(p.stack)] else [];
    LeavingStarts(p, i, r);
    InLineParts(p, calls, below, t);
    Pick(r.order, InLine(p), below, NewStacks(calls), t);
    NewIsQuiet(calls[t]);
    if t < |calls| - 1 {
      FoundAsLeftIff(r, |below| + t, events, l, q);
    }
  }

  lemma {:induction false} PossibleHasFrames(p: Stacks, i: Instruction)
    requires Possible(p, i)
    ensures p.stack.frames != []
  {
  }

  lemma {:induction false} InLineParts(p: Stacks, calls: seq<Call>, below: seq<Stack>, t: nat)
    requires p.stack.frames != [] && calls == p.stack.frames[|p.stack.frames| - 1].deferred && t < |calls|
    requires below == p.order + if |p.stack.frames| > 1 then [Leaving(p.stack)] else []
    ensures InLine(p) == below + NewStacks(calls)
    ensures NewStacks(calls)[..t] == NewStacks(calls[..t]) && NewStacks(calls)[t] == NewStack(calls[t])
    ensures |NewStacks(calls)| == |calls|
  {
    hide Leaving, NewStack;
  }

  lemma {:induction false} Pick<T>(order: seq<T>, all: seq<T>, below: seq<T>, above: seq<T>, t: nat)
    requires all == below + above && t < |above| && |all| > 0 && order == all[..|all| - 1]
    ensures if t == |above| - 1 then order == below + above[..t]
            else |below| + t < |order| && order[|below| + t] == above[t] && order[..|below| + t] == below + above[..t]
  {
    var j := |below| + t;
    assert all[..j] == below + above[..t];
    if t < |above| - 1 {
      assert order[..j] == all[..j];
    }
  }

  lemma {:induction false} NewIsQuiet(call: Call)
    ensures var x := NewStack(call);
            x.mode == Running && x.thrown.None? && x.frameNew.None? && x.ip == FunctionEntry(call.functionName)
    ensures NewStack(call).(thrown := Some(UNCHANGED), frameNew := None) == NewStack(call).(thrown := Some(UNCHANGED))
  {
  }

  /** The first pass over a frame that has deferred something. */
  lemma {:induction false} LeavingStarts(p: Stacks, i: Instruction, r: Stacks)
    requires Inv(p) && Possible(p, i) && !i.Local? && p.stack.mode == Running && Ticked(p, i) == Ok(r)
    requires p.stack.frames[|p.stack.frames| - 1].deferred != []
    ensures var calls := p.stack.frames[|p.stack.frames| - 1].deferred;
            var last := NewStack(calls[|calls| - 1]);
            && |InLine(p)| > 0 && r.order == InLine(p)[..|InLine(p)| - 1]
            && NewStacks(calls)[|calls| - 1] == last
            && r.stack == (if i.TailCall? && p.stack.ip == last.ip then last.(thrown := Some(UNCHANGED)) else last)
            && last.ip == FunctionEntry(calls[|calls| - 1].functionName)
  {
    hide Unwound, Handler, Waiting, Cleared;
    var q := SwitchToTop(InLine(p));
    assert Dispatched(p, i) == q;
    var c := AtEnd(p, i);
    if c.stack.thrown.Some? {
      UncaughtStays(c.stack, c.order);
    }
  }

  lemma {:induction false} OnWayBack(p: Stacks, q: Stacks)
    requires Inv(p) && !Stopped(p) && p.stack.frames != [] && q == Stacks(Leaving(p.stack), p.order, false)
    ensures Inv(q)
  {
    hide Waiting, Cleared;
  }

  /** A tick after which there is nothing to handle. */
  lemma {:induction false} QuietTick(p: Stacks, i: Instruction)
    requires Inv(p) && Possible(p, i)
    requires var d := Dispatched(p, i);
             && d.stack.mode == Running && d.stack.thrown.None? && d.stack.frames != []
             && (Waits(i) || d.stack.ip != p.stack.ip)
    ensures Ticked(p, i) == Ok(Dispatched(p, i))
  {
    hide Dispatched;
  }

  /** When an instruction that changes its own stack only ends with an exception: its own, or that it leads to itself
      and may not. */
  lemma {:induction false} LocalThrowsIff(p: Stacks, next: Stack, waits: bool)
    requires Possible(p, Local(next, waits)) && p.stack.mode == Running && next.mode == Running
    ensures AtEnd(p, Local(next, waits)).stack.thrown
            == if next.thrown.Some? then next.thrown
               else if next.ip == p.stack.ip && !waits then Some(Exception("InstructionUnchanged", 0)) else None
  {
  }

  /** A tick ends the process exactly when it halts, or returns from its last frame with nothing left to switch to. */
  lemma {:induction false} FinishesIff(p: Stacks, i: Instruction, r: Stacks)
    requires Inv(p) && Possible(p, i) && Ticked(p, i) == Ok(r)
    ensures r.finished
            <==> && p.stack.mode != DuringUnwinding
                 && if i.Local? then i.next.mode == Halted || i.next.frames == []
                    else && i.Return? && |p.stack.frames| == 1
                         && (p.stack.mode == Running ==> p.order == [] && p.stack.frames[0].deferred == [])
  {
    hide Unwound, Waiting, Handler;
    DispatchKeepsInv(p, i);
    if Finishes(p, i) {
      LeavesNothing(p, i);
    } else {
      EndIsGood(p, i);
      LeavesNothing(p, i);
      if NeedsUnwinding(AtEnd(p, i).stack) {
        UnwindKeepsInv(AtEnd(p, i));
      }
    }
  }

  lemma {:induction false} LeavesNothing(p: Stacks, i: Instruction)
    requires Inv(p) && Possible(p, i)
    ensures Finishes(p, i)
            <==> && p.stack.mode != DuringUnwinding
                 && if i.Local? then i.next.mode == Halted || i.next.frames == []
                    else && i.Return? && |p.stack.frames| == 1
                         && (p.stack.mode == Running ==> p.order == [] && p.stack.frames[0].deferred == [])
  {
    hide Handler;
    if p.stack.mode == Running && !i.Local? && InLine(p) != [] {
      InLineWaits(p);
      assert Waiting(InLine(p)[|InLine(p)| - 1]);
    }
  }

  /** A tail call from the last frame of a stack is carried out if and only if no deferred call, and no other
      stack, is left to switch to; otherwise the stack is dropped and the function never called. */
  lemma {:induction false} LastFrameTailCallIff(p: Stacks, name: string)
    requires Possible(p, TailCall(name, true)) && p.stack.mode == Running && |p.stack.frames| == 1
    ensures var q := Dispatched(p, TailCall(name, true));
            if p.order == [] && p.stack.frames[0].deferred == []
            then q.order == [] && q.stack.ip == FunctionEntry(name) && |q.stack.frames| == 1
            else q.order + [q.stack] == p.order + NewStacks(p.stack.frames[0].deferred)
  {
    hide NewStack;
    var calls := NewStacks(p.stack.frames[0].deferred);
    assert p.order + [] + calls == p.order + calls;
  }

  // ---------------------------------------------------------------- the objects

  class CallStack {
    var frames: seq<Frame>
    var tryFrames: seq<TryFrame>
    var mode: Mode
    var thrown: Option<Exception>
    var caught: Option<Exception>
    var ip: Address
    var frameNew: Option<Call>

    ghost function View(): (s: Stack)
      reads this
    {
      Stack(frames, tryFrames, mode, thrown, caught, ip, frameNew)
    }

    constructor (call: Call)
      ensures View() == NewStack(call)
    {
      frames, tryFrames, mode, thrown, caught := [Entered(call)], [], Running, None, None;
      ip, frameNew := FunctionEntry(call.functionName), None;
    }

    method FindCatchFrame() returns (found: Option<nat>)
      requires Active(View()).Some?
      ensures found == Handler(tryFrames, Active(View()).value.tag)
    {
      var tag := if mode == Running then thrown.value.tag else caught.value.tag;
      var i := |tryFrames|;
      assert tryFrames[..i] == tryFrames;
      while i > 0
        invariant 0 <= i <= |tryFrames|
        invariant Handler(tryFrames, tag) == Handler(tryFrames[..i], tag)
      {
        if tag in tryFrames[i - 1].catchers {
          return Some(i - 1);
        }
        i := i - 1;
        assert tryFrames[..i + 1][..i] == tryFrames[..i];
      }
      found := None;
    }

    method DistanceTo(id: nat) returns (distance: nat)
      requires frames != []
      ensures distance == |frames| - 1 - Target(frames, id)
    {
      distance := 0;
      var j := |frames| - 1;
      assert frames[..j + 1] == frames;
      while j > 0
        invariant 0 <= j < |frames| && distance == |frames| - 1 - j
        invariant Target(frames, id) == Target(frames[..j + 1], id)
      {
        if frames[j].id == id {
          break;
        }
        distance := distance + 1;
        assert frames[..j + 1][..j] == frames[..j];
        j := j - 1;
      }
    }

    method Pop() returns (outcome: Outcome<Frame>)
      requires frames != []
      modifies `frames
      ensures frames == old(frames)[..|old(frames)| - 1]
      ensures var last := old(frames)[|old(frames)| - 1];
              outcome == if last.unusedMove then Throw("unused pass-by-move parameter") else Ok(last)
    {
      var frame := frames[|frames| - 1];
      frames := frames[..|frames| - 1];
      outcome := if frame.unusedMove then Throw("unused pass-by-move parameter") else Ok(frame);
    }

    method PopMany(distance: nat) returns (outcome: Outcome<()>)
      requires distance < |frames|
      modifies `frames
      ensures outcome == if AllMovesUsed(old(frames), |old(frames)| - distance) then Ok(())
                         else Throw("unused pass-by-move parameter")
      ensures outcome.Ok? ==> frames == old(frames)[..|old(frames)| - distance]
    {
      for j := 0 to distance
        invariant frames == old(frames)[..|old(frames)| - j]
        invariant AllMovesUsed(old(frames), |old(frames)| - j)
      {
        var popped := this.Pop();
        if popped.Throw? {
          return Throw(popped.tag);
        }
      }
      outcome := Ok(());
    }

    method UnwindTryStackTo(m: nat)
      requires m < |tryFrames|
      modifies `tryFrames
      ensures tryFrames == old(tryFrames)[..m + 1]
    {
      while |tryFrames| - 1 != m
        invariant m < |tryFrames| <= |old(tryFrames)|
        invariant tryFrames == old(tryFrames)[..|tryFrames|]
      {
        tryFrames := tryFrames[..|tryFrames| - 1];
      }
    }

    /** Defers a call of the prepared frame, to when the topmost frame is discarded. */
    method PushDeferred(callName: string) returns (outcome: Outcome<()>)
      requires frames != []
      modifies `frames, `frameNew
      ensures outcome.Throw? <==> old(frameNew).None?
      ensures outcome.Throw? ==> unchanged(this)
      ensures outcome.Ok? ==>
        && frameNew == None
        && var n, back, call := |old(frames)| - 1, old(frames)[|old(frames)| - 1], old(frameNew).value;
           frames == old(frames)[..n]
                     + [Frame(back.id, back.functionName, back.returnAddress, back.unusedMove,
                              back.deferred + [Call(call.id, callName, call.unusedMove)])]
    {
      if frameNew.None? {
        return Throw("function call without a frame: use `frame 0' in source code if the function takes no parameters");
      }
      var call := frameNew.value.(functionName := callName);
      var back := frames[|frames| - 1];
      frames := frames[|frames| - 1 := back.(deferred := back.deferred + [call])];
      frameNew := None;
      return Ok(());
    }
  }

  ghost function Views(stacks: seq<CallStack>): (r: seq<Stack>)
    reads stacks
    ensures |r| == |stacks|
  {
    if stacks == [] then [] else Views(stacks[..|stacks| - 1]) + [stacks[|stacks| - 1].View()]
  }

  lemma {:induction false} ViewsAppend(a: seq<CallStack>, b: seq<CallStack>)
    ensures Views(a + b) == Views(a) + Views(b)
  {
    if b == [] {
      assert a + b == a;
    } else {
      var n := |b| - 1;
      ViewsAppend(a, b[..n]);
      assert (a + b)[..|a + b| - 1] == a + b[..n];
    }
  }

  lemma {:induction false} ViewsOne(stack: CallStack)
    ensures Views([stack]) == [stack.View()]
  {
  }

  lemma {:induction false} ViewsSwitch(order: seq<CallStack>, stack: CallStack, all: seq<CallStack>)
    requires order + [stack] == all
    ensures Stacks(stack.View(), Views(order), false) == SwitchToTop(Views(all))
  {
    ViewsAppend(order, [stack]);
    assert Views([stack]) == [stack.View()];
  }

  lemma {:induction false} ViewsOfThree(below: seq<CallStack>, x: CallStack, above: seq<CallStack>)
    ensures Views(below + [x] + above) == Views(below) + [x.View()] + Views(above)
  {
    ViewsAppend(below, [x]);
    ViewsAppend(below + [x], above);
    assert Views([x]) == [x.View()];
  }

  ghost predicate Distinct(stacks: seq<CallStack>) {
    forall i, j :: 0 <= i < j < |stacks| ==> stacks[i] != stacks[j]
  }

  lemma {:induction false} DistinctAppend(a: seq<CallStack>, b: seq<CallStack>)
    requires Distinct(a) && Distinct(b) && forall x :: x in b ==> x !in a
    ensures Distinct(a + b)
  {
    forall i, j | 0 <= i < |a| && 0 <= j < |b|
      ensures a[i] != b[j]
    {
      assert b[j] in b;
    }
  }

  lemma {:induction false} ActiveDoesNotWait(order: seq<CallStack>, stack: CallStack)
    requires Distinct(order + [stack])
    ensures stack !in order
  {
    forall i | 0 <= i < |order|
      ensures order[i] != stack
    {
      assert (order + [stack])[i] != (order + [stack])[|order|];
    }
  }

  lemma {:induction false} DistinctPrefix(order: seq<CallStack>, stack: CallStack)
    requires Distinct(order + [stack])
    ensures Distinct(order)
  {
    forall i, j | 0 <= i < j < |order|
      ensures order[i] != order[j]
    {
      assert (order + [stack])[i] != (order + [stack])[j];
    }
  }

  lemma {:induction false} ClearedLast(frames: seq<Frame>)
    requires frames != []
    ensures var n := |frames| - 1; Cleared(frames, n) == frames[n := frames[n].(deferred := [])]
  {
  }

  /** These are the stacks for the calls deferred by the frames from `first` up to `i`. */
  ghost predicate Registered(stacks: seq<Stack>, frames: seq<Frame>, first: nat, i: nat) {
    first <= i <= |frames| && stacks + DeferredFrom(frames, i) == DeferredFrom(frames, first)
  }

  lemma {:induction false} NextFrame(done: seq<Stack>, frames: seq<Frame>, first: nat, i: nat)
    requires i < |frames| && Registered(done, frames, first, i)
    ensures Registered(done + NewStacks(frames[i].deferred), frames, first, i + 1)
  {
    var calls, rest := NewStacks(frames[i].deferred), DeferredFrom(frames, i + 1);
    assert DeferredFrom(frames, i) == calls + rest;
    assert done + (calls + rest) == done + calls + rest;
  }

  lemma {:induction false} AllRegistered(stacks: seq<Stack>, frames: seq<Frame>, first: nat)
    requires Registered(stacks, frames, first, |frames|)
    ensures first <= |frames| && stacks == DeferredFrom(frames, first)
  {
  }

  /** The frames from `first` up to `i` have lost their deferred calls. */
  ghost predicate Swept(frames: seq<Frame>, before: seq<Frame>, first: nat, i: nat) {
    && |frames| == |before|
    && forall j :: 0 <= j < |before| ==> frames[j] == if first <= j < i then before[j].(deferred := []) else before[j]
  }

  lemma {:induction false} SweptNone(before: seq<Frame>, first: nat)
    requires first <= |before|
    ensures Swept(before, before, first, first) && Distinct([]) && Registered(Views([]), before, first, first)
  {
    hide DeferredFrom;
  }

  lemma {:induction false} SweptOne(frames: seq<Frame>, before: seq<Frame>, first: nat, i: nat)
    requires first <= i < |frames| && Swept(frames, before, first, i)
    ensures Swept(frames[i := frames[i].(deferred := [])], before, first, i + 1)
    ensures |frames| == |before| && frames[i] == before[i]
  {
  }

  lemma {:induction false} SweptAll(frames: seq<Frame>, before: seq<Frame>, first: nat)
    requires first <= |before| && Swept(frames, before, first, |before|)
    ensures frames == Cleared(before, first)
  {
  }

  lemma {:induction false} LastOf<T>(order: seq<T>, last: T, below: seq<T>, above: seq<T>)
    requires order + [last] == below + above
    ensures last in below || last in above
  {
    assert (below + above)[|order|] == last;
  }

  lemma {:induction false} ChecksKeepGood(p: Stacks, before: Address, waits: bool)
    requires Good(p.stack) && !p.finished
    ensures var c := Dropped(Checked(p, before, waits));
            Good(c.stack) && !c.finished && (NeedsUnwinding(c.stack) ==> CanUnwind(c.stack))
  {
  }

  /** A stack of its own for each of the calls. */
  method NewCallStacks(calls: seq<Call>) returns (added: seq<CallStack>)
    ensures fresh(added) && Distinct(added) && Views(added) == NewStacks(calls)
  {
    added := [];
    for d := 0 to |calls|
      invariant fresh(added) && Distinct(added) && Views(added) == NewStacks(calls[..d])
    {
      var t := new CallStack(calls[d]);
      added := added + [t];
      assert calls[..d + 1] == calls[..d] + [calls[d]];
    }
    assert calls[..|calls|] == calls;
  }

  class Process {
    var stack: CallStack
    var stacksOrder: seq<CallStack>
    var finished: bool

    /** No stack waits twice, or waits while it is active. */
    ghost predicate Valid()
      reads this
    {
      Distinct(stacksOrder + [stack])
    }

    ghost function View(): (p: Stacks)
      reads this, stack, stacksOrder
    {
      Stacks(stack.View(), Views(stacksOrder), finished)
    }

    constructor (call: Call)
      ensures Valid() && View() == Stacks(NewStack(call), [], false)
    {
      stack := new CallStack(call);
      stacksOrder, finished := [], false;
    }

    method RegisterDeferredCallsFrom(s: CallStack, i: nat) returns (added: seq<CallStack>)
      requires i < |s.frames|
      modifies `stacksOrder, s`frames
      ensures fresh(added) && Distinct(added) && stacksOrder == old(stacksOrder) + added
      ensures Views(added) == NewStacks(old(s.frames)[i].deferred)
      ensures s.frames == old(s.frames)[i := old(s.frames)[i].(deferred := [])]
    {
      added := NewCallStacks(s.frames[i].deferred);
      stacksOrder := stacksOrder + added;
      s.frames := s.frames[i := s.frames[i].(deferred := [])];
    }

    /** One round of the loop below; `added` are the stacks of the rounds before. */
    method RegisterNext(s: CallStack, i: nat, ghost before: seq<Frame>, ghost first: nat, ghost added: seq<CallStack>)
      returns (ghost more: seq<CallStack>)
      requires first <= i < |s.frames| && Swept(s.frames, before, first, i)
      requires Registered(Views(added), before, first, i) && Distinct(added) && s !in added
      modifies `stacksOrder, s`frames
      ensures fresh(more) && Distinct(added + more) && stacksOrder == old(stacksOrder) + more
      ensures Swept(s.frames, before, first, i + 1) && |s.frames| == |old(s.frames)|
      ensures Registered(Views(added + more), before, first, i + 1)
    {
      hide *;
      SweptOne(s.frames, before, first, i);
      NextFrame(Views(added), before, first, i);
      more := RegisterDeferredCallsFrom(s, i);
      ViewsAppend(added, more);
      DistinctAppend(added, more);
    }

    /** The loop over all frames from `first` on. */
    method RegisterDeferredCalls(s: CallStack, first: nat) returns (ghost added: seq<CallStack>)
      requires first <= |s.frames|
      modifies `stacksOrder, s`frames
      ensures fresh(added) && Distinct(added) && stacksOrder == old(stacksOrder) + added
      ensures Views(added) == DeferredFrom(old(s.frames), first)
      ensures s.frames == Cleared(old(s.frames), first)
    {
      hide *;
      added := [];
      ghost var frames := s.frames;
      SweptNone(frames, first);
      for i := first to |s.frames|
        invariant |s.frames| == |frames| && Swept(s.frames, frames, first, i)
        invariant fresh(added) && Distinct(added) && stacksOrder == old(stacksOrder) + added
        invariant Registered(Views(added), frames, first, i)
      {
        ghost var more := RegisterNext(s, i, frames, first, added);
        added := added + more;
      }
      SweptAll(s.frames, frames, first);
      AllRegistered(Views(added), frames, first);
    }

    method SwitchToLast()
      requires Distinct(stacksOrder) && stacksOrder != []
      modifies `stack, `stacksOrder
      ensures Valid() && stacksOrder + [stack] == old(stacksOrder)
    {
      stack := stacksOrder[|stacksOrder| - 1];
      stacksOrder := stacksOrder[..|stacksOrder| - 1];
    }

    /** The first phase: the active stack waits, and the deferred calls run. */
    method SuspendStack(first: nat) returns (ghost added: seq<CallStack>)
      requires Valid() && first <= |stack.frames|
      modifies `stack, `stacksOrder, stack`mode, stack`frames
      ensures fresh(added) && Valid()
      ensures stacksOrder + [stack] == old(stacksOrder) + [old(stack)] + added
      ensures Views(added) == DeferredFrom(old(stack.frames), first)
      ensures old(stack).mode == DuringUnwinding && old(stack).frames == Cleared(old(stack.frames), first)
    {
      hide Views, Distinct, DeferredFrom, Cleared;
      var s := stack;
      s.mode := DuringUnwinding;
      stacksOrder := stacksOrder + [s];
      added := RegisterDeferredCalls(s, first);
      assert forall x :: x in added ==> x !in old(stacksOrder) + [s];
      DistinctAppend(old(stacksOrder) + [s], added);
      SwitchToLast();
    }

    method UnwindCallStackTo(id: nat) returns (outcome: Outcome<()>, ghost added: seq<CallStack>)
      requires Valid() && stack.frames != []
      modifies `stack, `stacksOrder, stack`mode, stack`frames
      ensures var k := Target(old(stack.frames), id);
              match old(stack.mode)
              case Running =>
                && outcome.Ok? && fresh(added) && Valid()
                && stacksOrder + [stack] == old(stacksOrder) + [old(stack)] + added
                && Views(added) == DeferredFrom(old(stack.frames), k + 1)
                && old(stack).mode == DuringUnwinding && old(stack).frames == Cleared(old(stack.frames), k + 1)
              case DuringUnwinding =>
                && stack == old(stack) && stacksOrder == old(stacksOrder) && stack.mode == Running
                && outcome == (if AllMovesUsed(old(stack.frames), k + 1) then Ok(())
                               else Throw("unused pass-by-move parameter"))
                && (outcome.Ok? ==> stack.frames == old(stack.frames)[..k + 1])
              case _ =>
                outcome == Throw("stack left in an invalid state during unwinding")
    {
      hide Views, Distinct, DeferredFrom, Cleared, Target, AllMovesUsed;
      added := [];
      var distance := stack.DistanceTo(id);
      if stack.mode == Running {
        added := SuspendStack(|stack.frames| - distance);
        return Ok(()), added;
      }
      if stack.mode != DuringUnwinding {
        return Throw("stack left in an invalid state during unwinding"), added;
      }
      stack.mode := Running;
      outcome := stack.PopMany(distance);
    }

    /** A catcher has been found in block `m`. */
    method UnwindTo(m: nat) returns (outcome: Outcome<()>)
      requires Valid() && CanUnwind(stack.View()) && !finished
      requires Handler(stack.tryFrames, Active(stack.View()).value.tag) == Some(m)
      modifies `stack, `stacksOrder, stack
      ensures Unwound(old(View())).Ok? ==> outcome.Ok? && Valid() && View() == Unwound(old(View())).value
      ensures Unwound(old(View())).Throw? ==> outcome == Throw(Unwound(old(View())).tag)
    {
      hide Views, Distinct, Target, Handler, Cleared, DeferredFrom, AllMovesUsed;
      var s := stack;
      ActiveDoesNotWait(stacksOrder, stack);
      if s.mode == Running {
        s.caught := s.thrown;
        s.thrown := None;
      }
      s.ip := BlockEntry(s.tryFrames[m].catchers[s.caught.value.tag]);
      ghost var added;
      outcome, added := UnwindCallStackTo(s.tryFrames[m].associated);
      if outcome.Throw? {
        return;
      }
      s.UnwindTryStackTo(m);
      assert Views(old(stacksOrder)) == old(Views(stacksOrder));
      if old(stack.mode) == Running {
        ViewsSwitch(stacksOrder, stack, old(stacksOrder) + [s] + added);
        ViewsOfThree(old(stacksOrder), s, added);
      }
    }

    /** No catcher has been found. */
    method UnwindUncaught()
      requires Valid() && CanUnwind(stack.View()) && !finished
      requires Handler(stack.tryFrames, Active(stack.View()).value.tag) == None
      modifies `stack, `stacksOrder, stack
      ensures Valid() && Ok(View()) == Unwound(old(View()))
    {
      hide Views, Distinct, Target, Handler, Cleared, DeferredFrom;
      var s := stack;
      ActiveDoesNotWait(stacksOrder, stack);
      stacksOrder := stacksOrder + [s];
      ghost var added := RegisterDeferredCalls(s, 0);
      DistinctAppend(old(stacksOrder) + [s], added);
      SwitchToLast();
      assert Views(old(stacksOrder)) == old(Views(stacksOrder));
      ViewsSwitch(stacksOrder, stack, old(stacksOrder) + [s] + added);
      ViewsOfThree(old(stacksOrder), s, added);
    }

    method Unwind() returns (outcome: Outcome<()>)
      requires Valid() && CanUnwind(stack.View()) && !finished
      modifies `stack, `stacksOrder, stack
      ensures Unwound(old(View())).Ok? ==> outcome.Ok? && Valid() && View() == Unwound(old(View())).value
      ensures Unwound(old(View())).Throw? ==> outcome == Throw(Unwound(old(View())).tag)
    {
      hide Unwound, Handler, Views, Distinct;
      var found := stack.FindCatchFrame();
      if found.Some? {
        outcome := UnwindTo(found.value);
      } else {
        UnwindUncaught();
        outcome := Ok(());
      }
    }

    /** The first pass of a return or tail call, if there is a stack to switch to. */
    method SwitchToDeferred() returns (switched: bool)
      requires Valid() && stack.frames != [] && stack.mode == Running && !finished
      modifies `stack, `stacksOrder, stack
      ensures Valid() && (stack == old(stack) || stack in old(stacksOrder) || fresh(stack))
      ensures switched <==> InLine(old(View())) != []
      ensures if switched then View() == SwitchToTop(InLine(old(View())))
              else stack == old(stack) && stacksOrder == [] && View() == old(View()).(stack := Leaving(old(View()).stack))
    {
      hide Views, Distinct, Cleared, NewStacks;
      ActiveDoesNotWait(stacksOrder, stack);
      DistinctPrefix(stacksOrder, stack);
      var s, n := stack, |stack.frames| - 1;
      if n > 0 {
        stacksOrder := stacksOrder + [s];
      }
      ghost var below := stacksOrder;
      ghost var added := RegisterDeferredCallsFrom(s, n);
      s.mode := OnFramePop;
      ClearedLast(old(s.frames));
      DistinctAppend(below, added);
      assert Views(old(stacksOrder)) == old(Views(stacksOrder));
      ViewsAppend(below, added);
      ViewsAppend(old(stacksOrder), [s]);
      ViewsOne(s);
      assert Views(below) + Views(added) == InLine(old(View()));
      switched := stacksOrder != [];
      if switched {
        SwitchToLast();
        ViewsSwitch(stacksOrder, stack, below + added);
        LastOf(stacksOrder, stack, below, added);
      }
    }

    method OpReturn() returns (outcome: Outcome<()>)
      requires Valid() && !finished
      modifies `stack, `stacksOrder, stack
      ensures (stack == old(stack) || stack in old(stacksOrder) || fresh(stack)) && (outcome.Throw? ==> stack == old(stack))
      ensures old(stack.frames) == [] ==> outcome == Throw("no frame on stack: no call to return from") && View() == old(View())
      ensures old(stack.frames) != [] && (old(stack.mode) == Running || old(stack.mode) == OnFramePop) ==>
        && Valid()
        && Left(old(View()), Return)
           == if outcome.Ok? then View() else View().(stack := View().stack.(thrown := Some(Exception("Exception", 0))))
    {
      hide Views, Distinct, Cleared, NewStacks, InLine;
      ActiveDoesNotWait(stacksOrder, stack);
      if stack.frames == [] {
        return Throw("no frame on stack: no call to return from");
      }
      if stack.mode == Running {
        var switched := SwitchToDeferred();
        if switched {
          return Ok(());
        }
      }
      if stack.mode != OnFramePop {
        return Throw("stack left in an invalid state");
      }
      var back := stack.frames[|stack.frames| - 1];
      stack.mode := Running;
      var popped := stack.Pop();
      if popped.Throw? {
        return Throw(popped.tag);
      }
      stack.ip := back.returnAddress;
      outcome := Ok(());
    }

    /** `callable` says whether the name is that of a native function.  The prepared frame is only looked at
        when the call is carried out. */
    method OpTailCall(name: string, callable: bool) returns (outcome: Outcome<()>)
      requires Valid() && !finished && stack.frames != [] && (stack.mode == Running || stack.mode == OnFramePop)
      requires callable && IsLastPass(View()) ==> stack.frameNew.Some?
      modifies `stack, `stacksOrder, stack
      ensures Valid() && (stack == old(stack) || stack in old(stacksOrder) || fresh(stack))
      ensures outcome.Throw? ==> stack == old(stack)
      ensures Left(old(View()), TailCall(name, callable))
              == if outcome.Ok? then View() else View().(stack := View().stack.(thrown := Some(Exception("Exception", 0))))
    {
      hide Views, Distinct, Cleared, NewStacks, InLine;
      ActiveDoesNotWait(stacksOrder, stack);
      if stack.mode == Running {
        var switched := SwitchToDeferred();
        if switched {
          return Ok(());
        }
      }
      stack.mode := Running;
      if !callable {
        return Throw("tail call to undefined function: " + name);
      }
      var n := |stack.frames| - 1;
      stack.frames := stack.frames[n := stack.frames[n].(unusedMove := stack.frameNew.value.unusedMove)];
      stack.frameNew := None;
      stack.ip := FunctionEntry(name);
      outcome := Ok(());
    }

    /** Runs the instruction; an exception it throws is raised on the active stack. */
    method Dispatch(i: Instruction)
      requires Valid() && Good(stack.View()) && Possible(View(), i)
      modifies `stack, `stacksOrder, stack
      ensures stack == old(stack) || stack in old(stacksOrder) || fresh(stack)
      ensures Valid() && View() == Dispatched(old(View()), i)
    {
      hide Views, Distinct, Left, InLine;
      ActiveDoesNotWait(stacksOrder, stack);
      if stack.mode == Running || stack.mode == OnFramePop {
        if i.Local? {
          var next := i.next;
          stack.frames, stack.tryFrames, stack.mode, stack.thrown := next.frames, next.tryFrames, next.mode, next.thrown;
          stack.caught, stack.ip, stack.frameNew := next.caught, next.ip, next.frameNew;
        } else {
          var outcome;
          if i.Return? {
            outcome := OpReturn();
          } else {
            outcome := OpTailCall(i.name, i.callable);
          }
          ActiveDoesNotWait(stacksOrder, stack);
          if outcome.Throw? {
            Raise();
          }
        }
      }
    }

    /** What a scheduler does to a stopped process that has a watchdog. */
    method Become(call: Call)
      requires Valid()
      modifies this`finished, stack
      ensures Valid() && View() == Revived(old(View()), call)
    {
      ActiveDoesNotWait(stacksOrder, stack);
      hide Views;
      stack.frames := [];
      stack.thrown, stack.caught := None, None;
      finished := false;
      stack.frames, stack.frameNew := [Entered(call)], None;
      stack.ip := FunctionEntry(call.functionName);
    }

    method Raise()
      requires Valid()
      modifies stack`thrown
      ensures View() == old(View()).(stack := old(View()).stack.(thrown := Some(Exception("Exception", 0))))
    {
      ActiveDoesNotWait(stacksOrder, stack);
      hide Views;
      stack.thrown := Some(Exception("Exception", 0));
    }

    /** The checks that follow an instruction. */
    method CheckProgress(before: Address, waits: bool)
      requires Valid()
      modifies stack`thrown, stack`frameNew
      ensures View() == Dropped(Checked(old(View()), before, waits))
    {
      ActiveDoesNotWait(stacksOrder, stack);
      hide Views;
      if stack.ip == before && stack.mode == Running && !waits && stack.thrown.None? {
        stack.thrown := Some(UNCHANGED);
      }
      if stack.thrown.Some? {
        stack.frameNew := None;
      }
    }

    method Tick(i: Instruction) returns (outcome: Outcome<()>)
      requires Valid() && Inv(View()) && Possible(View(), i)
      modifies this, stack, stacksOrder
      ensures Ticked(old(View()), i).Ok? ==> outcome.Ok? && Valid() && View() == Ticked(old(View()), i).value
      ensures Ticked(old(View()), i).Throw? ==> outcome == Throw(Ticked(old(View()), i).tag)
    {
      hide Views, Distinct, Dispatched, Unwound, AllWait, Checked, Dropped;
      var before := stack.ip;
      DispatchKeepsInv(View(), i);
      Dispatch(i);
      if stack.mode == Halted || stack.frames == [] {
        finished := true;
        return Ok(());
      }
      ChecksKeepGood(View(), before, Waits(i));
      CheckProgress(before, Waits(i));
      if stack.thrown.Some? || stack.mode == DuringUnwinding {
        outcome := Unwind();
      } else {
        outcome := Ok(());
      }
    }
  }
}
