/** Runs of the I2C driver shared by several tasks: every interleaving of event interrupts, error
    interrupts, polls and calls (rust/src/bsp/i2c/mod.rs, run_transaction; rust/src/bsp/i2c/i2c_v1.rs,
    the two handlers). */
module I2cBus {

  import opened Options
  import opened I2c

  type Task = nat

  datatype Event =
    | Call(task: Task, addr: Byte, steps: seq<Step>)
    | Interrupt(flags: Flags, b0: Byte, b1: Byte)
    | Error
    | Poll(task: Task)

  /** `waiting` are the tasks inside the polling loop of run_transaction. */
  datatype System = System(ctx: Context, waiting: set<Task>)

  const INITIAL := System(Context(None, Done(0), []), {})

  /** What the task that an event belongs to gets to see. */
  datatype Result = Nothing | Accepted | Rejected | Returned(ok: bool, steps: seq<Step>)

  /** A task calls when it is not in a call, with steps the driver admits; it polls when it is. Any
      other event of a task cannot occur, and counts as nothing. */
  function Next(sys: System, e: Event): (System, Result)
    requires Valid(sys.ctx)
  {
    match e
    case Call(task, addr, steps) =>
      if task in sys.waiting || !ValidSteps(steps) then (sys, Nothing)
      else if sys.ctx.trans.Some? || !sys.ctx.state.Done? then (sys, Rejected)
      else (System(Begin(addr, steps), sys.waiting + {task}), Accepted)
    case Interrupt(f, b0, b1) => (sys.(ctx := OnEvent(sys.ctx, f, b0, b1)), Nothing)
    case Error => (sys.(ctx := OnError(sys.ctx)), Nothing)
    case Poll(task) =>
      if task !in sys.waiting || !sys.ctx.state.Done? then (sys, Nothing)
      else
        var ok := sys.ctx.state.ret == 0;
        (System(Context(None, sys.ctx.state, if ok then sys.ctx.ops else []), sys.waiting - {task}),
         Returned(ok, if sys.ctx.trans.Some? then sys.ctx.trans.value.steps else []))
  }

  lemma NextKeepsValid(sys: System, e: Event)
    requires Valid(sys.ctx)
    ensures Valid(Next(sys, e).0.ctx)
  {
    match e {
      case Interrupt(f, b0, b1) => OnEventKeepsValid(sys.ctx, f, b0, b1);
      case _ =>
    }
  }

  /** The state after a history of events. */
  function After(events: seq<Event>): (sys: System)
    ensures Valid(sys.ctx)
  {
    if events == [] then INITIAL
    else
      var n := |events| - 1;
      NextKeepsValid(After(events[..n]), events[n]);
      Next(After(events[..n]), events[n]).0
  }

  /** The result of the i-th event of a history. */
  function ResultOf(events: seq<Event>, i: nat): Result
    requires i < |events|
  {
    Next(After(events[..i]), events[i]).1
  }

  /** Where in a history the call that holds the bus was accepted. */
  function Holder(events: seq<Event>): (i: Option<nat>)
    ensures i.Some? ==> i.value < |events|
  {
    if events == [] then None
    else
      var n := |events| - 1;
      match ResultOf(events, n)
      case Accepted => Some(n)
      case Returned(_, _) => None
      case _ => Holder(events[..n])
  }

  /** An error interrupt came since then. */
  function Disturbed(events: seq<Event>): bool {
    if events == [] then false
    else
      var n := |events| - 1;
      !ResultOf(events, n).Accepted? && (events[n].Error? || Disturbed(events[..n]))
  }

  lemma ResultInPrefix(events: seq<Event>, k: nat, j: nat)
    requires j < k <= |events|
    ensures ResultOf(events[..k], j) == ResultOf(events, j)
  {
    assert events[..k][..j] == events[..j];
  }

  predicate ChangesHands(r: Result) {
    r.Accepted? || r.Returned?
  }

  /** Nothing between the i-th event and the n-th gave the bus away. */
  ghost predicate Quiet(events: seq<Event>, i: nat, n: nat)
    requires n <= |events|
  {
    forall j :: i < j < n ==> !ChangesHands(ResultOf(events, j))
  }

  /** What Holder says about a history. */
  lemma {:induction false} HolderMeans(events: seq<Event>, i: nat)
    requires Holder(events) == Some(i)
    ensures events[i].Call? && ResultOf(events, i) == Accepted
    ensures Quiet(events, i, |events|)
    decreases events
  {
    var n := |events| - 1;
    HolderStep(events, n, i);
    if i < n {
      var before := events[..n];
      HolderMeans(before, i);
      ResultInPrefix(events, n, i);
      QuietInPrefix(events, before, i, n);
    }
  }

  lemma HolderStep(events: seq<Event>, n: nat, i: nat)
    requires n + 1 == |events| && Holder(events) == Some(i)
    ensures if i < n then Holder(events[..n]) == Some(i) && !ChangesHands(ResultOf(events, n))
            else i == n && events[n].Call? && ResultOf(events, n) == Accepted
  {
  }

  lemma QuietInPrefix(events: seq<Event>, before: seq<Event>, i: nat, n: nat)
    requires n + 1 == |events| && before == events[..n]
    requires Quiet(before, i, n) && !ChangesHands(ResultOf(events, n))
    ensures Quiet(events, i, n + 1)
  {
    forall j | i < j < n
      ensures !ChangesHands(ResultOf(events, j))
    {
      ResultInPrefix(events, n, j);
    }
  }

  /** What Disturbed says about it. */
  lemma {:induction false} UndisturbedMeans(events: seq<Event>, i: nat)
    requires Holder(events) == Some(i) && !Disturbed(events)
    ensures forall j :: i < j < |events| ==> !events[j].Error?
    decreases events
  {
    var n := |events| - 1;
    HolderStep(events, n, i);
    if i < n {
      var before := events[..n];
      UndisturbedStep(events, n);
      UndisturbedMeans(before, i);
      assert forall j :: 0 <= j < n ==> events[j] == before[j];
    }
  }

  lemma UndisturbedStep(events: seq<Event>, n: nat)
    requires n + 1 == |events| && !Disturbed(events) && !ResultOf(events, n).Accepted?
    ensures !events[n].Error? && !Disturbed(events[..n])
  {
  }

  /** A transaction that an error interrupt has struck is reported as failed. */
  lemma DisturbedFails(events: seq<Event>, i: nat)
    requires Holder(events) == Some(i) && Disturbed(events)
    ensures events[i].Call? && ResultOf(events, i) == Accepted
    ensures var result := Next(After(events), Poll(events[i].task)).1;
            result.Returned? && !result.ok
  {
    ContextHasOneOwner(events);
    HolderMeans(events, i);
  }

  /** The context holds the steps of one waiting task, as far as the bus protocol got with them. */
  ghost predicate HeldBy(sys: System, call: Event) {
    call.Call? && Refines(call.steps, sys.ctx) && sys.ctx.trans.value.addr == call.addr
    && sys.waiting == {call.task}
  }

  ghost predicate OneOwner(events: seq<Event>) {
    var sys := After(events);
    match Holder(events)
    case None => sys.ctx.trans.None? && sys.waiting == {}
    case Some(i) => HeldBy(sys, events[i]) && (Disturbed(events) ==> sys.ctx.state == Done(-1))
  }

  /** In every reachable state the context is empty and nobody waits, or it holds the steps of the
      one task that waits; and an error interrupt ends the transaction. */
  lemma {:induction false} ContextHasOneOwner(events: seq<Event>)
    ensures OneOwner(events)
    decreases events
  {
    if events != [] {
      var n := |events| - 1;
      ContextHasOneOwner(events[..n]);
      NextKeepsOwner(events[..n], events[n], events);
    }
  }

  lemma InterruptKeepsHolder(sys: System, call: Event, f: Flags, b0: Byte, b1: Byte)
    requires Valid(sys.ctx) && HeldBy(sys, call)
    ensures HeldBy(Next(sys, Interrupt(f, b0, b1)).0, call)
    ensures sys.ctx.state.Done? ==> OnEvent(sys.ctx, f, b0, b1) == sys.ctx
  {
    EventRefines(call.steps, sys.ctx, f, b0, b1);
  }

  lemma NextKeepsOwner(before: seq<Event>, e: Event, events: seq<Event>)
    requires OneOwner(before) && events == before + [e]
    ensures OneOwner(events)
  {
    assert events[..|before|] == before;
    var sys := After(before);
    match e {
      case Call(task, addr, steps) =>
        if ValidSteps(steps) {
          BeginRefines(addr, steps);
        }
      case Interrupt(f, b0, b1) =>
        if sys.ctx.trans.Some? {
          InterruptKeepsHolder(sys, before[Holder(before).value], f, b0, b1);
        }
      case Error =>
      case Poll(task) =>
    }
  }

  /** run_transaction returns Ok only after every byte of the caller's own steps was transferred in
      bus order, with no error interrupt since it took the bus, and with no other call in between;
      and its steps are gone from the context when it returns. */
  lemma OkMeansTransferred(events: seq<Event>, task: Task, steps: seq<Step>) returns (i: nat)
    requires Next(After(events), Poll(task)).1 == Returned(true, steps)
    ensures i < |events| && events[i].Call? && events[i].task == task && ResultOf(events, i) == Accepted
    ensures forall j :: i < j < |events| ==>
              !events[j].Error? && !ChangesHands(ResultOf(events, j))
    ensures |steps| == |events[i].steps|
    ensures forall k :: 0 <= k < |steps| ==> SameShape(events[i].steps[k], steps[k])
    ensures Finished(events[i].addr, steps, After(events).ctx.ops)
    ensures Addressed(events[i].addr, steps, After(events).ctx.ops)
    ensures Next(After(events), Poll(task)).0 == System(Context(None, Done(0), After(events).ctx.ops), {})
  {
    ContextHasOneOwner(events);
    i := Holder(events).value;
    HolderMeans(events, i);
    UndisturbedMeans(events, i);
    FinishedMeans(events[i].addr, steps, After(events).ctx.ops);
  }

  /** A call that finds the bus taken is turned away without any effect, and a call is turned away
      only when some task holds the bus. */
  lemma RejectedIff(events: seq<Event>, task: Task, addr: Byte, steps: seq<Step>)
    requires ValidSteps(steps) && task !in After(events).waiting
    ensures var (sys, result) := Next(After(events), Call(task, addr, steps));
            && (result == Rejected <==> After(events).waiting != {})
            && (result == Rejected ==> sys == After(events))
            && (result != Rejected ==> result == Accepted && sys.waiting == {task})
  {
    ContextHasOneOwner(events);
  }

  // -------------------------------------------------------------- termination

  datatype Reading = Reading(flags: Flags, b0: Byte, b1: Byte)

  function EventRun(c: Context, rs: seq<Reading>): (r: Context)
    requires Valid(c)
    ensures Valid(r)
  {
    if rs == [] then c
    else
      var n := |rs| - 1;
      OnEventKeepsValid(EventRun(c, rs[..n]), rs[n].flags, rs[n].b0, rs[n].b1);
      OnEvent(EventRun(c, rs[..n]), rs[n].flags, rs[n].b0, rs[n].b1)
  }

  /** The interrupts of a run that changed the state. */
  function Effective(c: Context, rs: seq<Reading>): nat
    requires Valid(c)
  {
    if rs == [] then 0
    else
      var n := |rs| - 1;
      Effective(c, rs[..n]) + (if EventRun(c, rs).state != EventRun(c, rs[..n]).state then 1 else 0)
  }

  /** A transaction takes at most one interrupt per byte and three per step, however the interrupts
      fall; all others leave it alone. */
  lemma {:induction false} InterruptsAreBounded(addr: Byte, steps: seq<Step>, rs: seq<Reading>)
    requires ValidSteps(steps)
    ensures Effective(Begin(addr, steps), rs) + Measure(EventRun(Begin(addr, steps), rs))
            <= Bytes(steps, 0) + 3 * |steps|
  {
    var c := Begin(addr, steps);
    WorkIs(steps, 0);
    if rs != [] {
      var n := |rs| - 1;
      InterruptsAreBounded(addr, steps, rs[..n]);
      EventMakesProgress(EventRun(c, rs[..n]), rs[n].flags, rs[n].b0, rs[n].b1);
    }
  }

  // ----------------------------------------------------------------- liveness

  ghost predicate AllReady(rs: seq<Reading>) {
    forall j :: 0 <= j < |rs| ==> rs[j].flags == ALL_FLAGS
  }

  function Interrupts(rs: seq<Reading>): (events: seq<Event>)
    ensures |events| == |rs|
    ensures forall j :: 0 <= j < |rs| ==> events[j] == Interrupt(rs[j].flags, rs[j].b0, rs[j].b1)
  {
    seq(|rs|, j requires 0 <= j < |rs| => Interrupt(rs[j].flags, rs[j].b0, rs[j].b1))
  }

  /** Every ready event takes off the measure, so that in the end the transaction is done. */
  lemma {:induction false} ReadyEventsFinish(c: Context, rs: seq<Reading>)
    requires Valid(c) && c.trans.Some? && c.state != Done(-1) && AllReady(rs)
    requires c.state.Done? ==> c.state == Done(0)
    ensures var c' := EventRun(c, rs);
            && c'.trans.Some? && (c'.state.Done? ==> c'.state == Done(0))
            && (c'.state.Done? || Measure(c') + |rs| <= Measure(c))
  {
    if rs != [] {
      var n := |rs| - 1;
      var before := EventRun(c, rs[..n]);
      ReadyEventsFinish(c, rs[..n]);
      ReadyEvent(before, rs[n].b0, rs[n].b1);
    }
  }

  lemma ReadyEvent(c: Context, b0: Byte, b1: Byte)
    requires Valid(c) && c.trans.Some? && (c.state.Done? ==> c.state == Done(0))
    ensures var c' := OnEvent(c, ALL_FLAGS, b0, b1);
            && Valid(c') && c'.trans.Some? && (c'.state.Done? ==> c'.state == Done(0))
            && (if c.state.Done? then c' == c else Measure(c') < Measure(c))
  {
    var t := c.trans.value;
    ReadyAtAllFlags(t.steps[t.curr], c.state);
    AdvancesIff(c, ALL_FLAGS, b0, b1);
    EventMakesProgress(c, ALL_FLAGS, b0, b1);
  }

  /** Interrupts drive the context of a history as they drive the context alone. */
  lemma {:induction false} AfterInterrupts(events: seq<Event>, rs: seq<Reading>)
    ensures After(events + Interrupts(rs)) == After(events).(ctx := EventRun(After(events).ctx, rs))
  {
    var all := events + Interrupts(rs);
    if rs == [] {
      assert all == events;
    } else {
      var n := |rs| - 1;
      AfterInterrupts(events, rs[..n]);
      assert all[..|all| - 1] == events + Interrupts(rs[..n]);
      assert all[|all| - 1] == Interrupt(rs[n].flags, rs[n].b0, rs[n].b1);
    }
  }

  /** A call that takes the bus returns Ok, once the peripheral has reported its flags often enough:
      one interrupt for each byte and three for each step will do. */
  lemma ReadyBusServes(events: seq<Event>, task: Task, addr: Byte, steps: seq<Step>, rs: seq<Reading>)
    requires Next(After(events), Call(task, addr, steps)).1 == Accepted
    requires AllReady(rs) && |rs| >= Bytes(steps, 0) + 3 * |steps|
    ensures var history := events + [Call(task, addr, steps)] + Interrupts(rs);
            var result := Next(After(history), Poll(task)).1;
            result.Returned? && result.ok
  {
    var called := events + [Call(task, addr, steps)];
    AfterCall(events, task, addr, steps, called);
    AfterInterrupts(called, rs);
    ReadyEventsFinish(Begin(addr, steps), rs);
    WholeWork(addr, steps);
    DoneIsReturned(After(called + Interrupts(rs)), task);
  }

  lemma AfterCall(events: seq<Event>, task: Task, addr: Byte, steps: seq<Step>, called: seq<Event>)
    requires Next(After(events), Call(task, addr, steps)).1 == Accepted
    requires called == events + [Call(task, addr, steps)]
    ensures ValidSteps(steps) && After(called).ctx == Begin(addr, steps) && task in After(called).waiting
  {
    assert called[..|called| - 1] == events;
  }

  lemma DoneIsReturned(sys: System, task: Task)
    requires Valid(sys.ctx) && task in sys.waiting && sys.ctx.state == Done(0)
    ensures Next(sys, Poll(task)).1.Returned? && Next(sys, Poll(task)).1.ok
  {
  }

  lemma WholeWork(addr: Byte, steps: seq<Step>)
    requires ValidSteps(steps)
    ensures Valid(Begin(addr, steps)) && Measure(Begin(addr, steps)) == Bytes(steps, 0) + 3 * |steps| > 0
  {
    WorkIs(steps, 0);
  }
}
