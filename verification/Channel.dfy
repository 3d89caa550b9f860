/** A spinner channel: its plan, its state, and one reply to each request
    (rust/src/spinner/spinner.rs, Channel). */
module Channel {

  /** Targets are carried as they are; nothing computes with them. */
  datatype Leg = Leg(durationMsecs: nat, targetPct: real)

  datatype ChannelState = Stopped | Running | Spindown

  /** The legs that the Rust view of the plan payload can hold; reading or writing past them panics. */
  const PAYLOAD_LEGS: nat := 10

  const STATE_STOPPED: nat := 0
  const STATE_RUNNING: nat := 1
  const STATE_SPINNING_DOWN: nat := 2

  datatype Event = SetPlan(legs: seq<Leg>) | GetPlan | SetState(state: nat) | GetState

  datatype Reply =
    | ReturnValue(ret: int)
    | PlanReply(channel: nat, legs: seq<Leg>)
    | StateReply(channel: nat, state: nat, elapsedMsecs: nat, outputPct: real)

  /** A reply attempt: its transaction id, its contents, and whether there was a message for it. */
  datatype Attempt = Attempt(transId: nat, reply: Reply, sent: bool)

  datatype View = View(id: nat, state: ChannelState, plan: seq<Leg>, elapsedMsecs: nat, outputPct: real)

  predicate ValidEvent(e: Event) {
    e.SetPlan? ==> |e.legs| <= PAYLOAD_LEGS
  }

  function Code(s: ChannelState): nat {
    match s case Stopped => STATE_STOPPED case Running => STATE_RUNNING case Spindown => STATE_SPINNING_DOWN
  }

  /** What a request makes of a channel, and what it is answered. */
  function Handle(c: View, e: Event): (View, Reply) {
    match e
    case GetPlan => (c, PlanReply(c.id, c.plan))
    case GetState => (c, StateReply(c.id, Code(c.state), c.elapsedMsecs, c.outputPct))
    case SetPlan(legs) => if c.state == Stopped then (c.(plan := legs), ReturnValue(0)) else (c, ReturnValue(1))
    case SetState(s) =>
      if c.state == Spindown then (c, ReturnValue(1))
      else if c.state == Running && s == STATE_STOPPED then (c.(state := Spindown), ReturnValue(0))
      else if c.state == Stopped && s == STATE_RUNNING then (c.(state := Running), ReturnValue(0))
      else (c, ReturnValue(0))
  }

  class Channel {
    const id: nat
    var state: ChannelState
    const plan: array<Leg>
    var planLen: nat
    var elapsedTimeMsecs: nat
    var outputValPct: real
    /** Every reply that was ever attempted. */
    ghost var attempts: seq<Attempt>
    /** The replies that reached the outgoing queue. */
    var outgoing: seq<(nat, Reply)>

    /** `maxLegs` is MAX_SPIN_PLAN_LEGS. */
    constructor (id: nat, maxLegs: nat)
      requires maxLegs >= PAYLOAD_LEGS
      ensures Valid() && Look() == View(id, Stopped, [], 0, 0.0) && attempts == [] && outgoing == []
      ensures fresh(plan)
    {
      this.id, state, planLen, elapsedTimeMsecs, outputValPct := id, Stopped, 0, 0, 0.0;
      plan := new Leg[maxLegs](_ => Leg(0, 0.0));
      attempts, outgoing := [], [];
    }

    ghost predicate Valid()
      reads this
    {
      planLen <= PAYLOAD_LEGS <= plan.Length
    }

    function Look(): View
      requires planLen <= plan.Length
      reads this, plan
    {
      View(id, state, plan[..planLen], elapsedTimeMsecs, outputValPct)
    }

    /** send_event. `available` says whether a message can be allocated for the reply. Each request
        makes exactly one attempt, under its own transaction id. */
    method SendEvent(transId: nat, event: Event, available: bool)
      requires Valid() && ValidEvent(event)
      modifies this, plan
      ensures Valid() && Look() == Handle(old(Look()), event).0
      ensures attempts == old(attempts) + [Attempt(transId, Handle(old(Look()), event).1, available)]
      ensures outgoing == old(outgoing) + if available then [(transId, Handle(old(Look()), event).1)] else []
    {
      match state {
        case Stopped =>
          match event {
            case SetPlan(legs) =>
              SetChannelPlan(legs);
              SendReturnVal(transId, 0, available);
            case GetPlan => SendSpinPlanReply(transId, available);
            case SetState(s) =>
              SetChannelState(s);
              SendReturnVal(transId, 0, available);
            case GetState => SendSpinStateReply(transId, available);
          }
        case Running =>
          match event {
            case GetPlan => SendSpinPlanReply(transId, available);
            case SetState(s) =>
              SetChannelState(s);
              SendReturnVal(transId, 0, available);
            case GetState => SendSpinStateReply(transId, available);
            case _ => SendReturnVal(transId, 1, available);
          }
        case Spindown =>
          match event {
            case GetPlan => SendSpinPlanReply(transId, available);
            case GetState => SendSpinStateReply(transId, available);
            case _ => SendReturnVal(transId, 1, available);
          }
      }
    }

    method SetChannelState(s: nat)
      modifies this`state
      ensures state == if old(state) == Running && s == STATE_STOPPED then Spindown
                       else if old(state) == Stopped && s == STATE_RUNNING then Running
                       else old(state)
    {
      if state == Running && s == STATE_STOPPED {
        state := Spindown;
      } else if state == Stopped && s == STATE_RUNNING {
        state := Running;
      }
    }

    method SetChannelPlan(legs: seq<Leg>)
      requires Valid() && |legs| <= PAYLOAD_LEGS
      modifies this`planLen, plan
      ensures Valid() && Look() == if state == Stopped then old(Look()).(plan := legs) else old(Look())
    {
      if state != Stopped {
        return;
      }
      planLen := |legs|;
      for i := 0 to planLen
        invariant planLen == |legs| && plan[..i] == legs[..i]
      {
        plan[i] := legs[i];
      }
    }

    /** The write that ends each of the three reply functions. */
    method Write(transId: nat, reply: Reply, available: bool)
      modifies this`attempts, this`outgoing
      ensures attempts == old(attempts) + [Attempt(transId, reply, available)]
      ensures outgoing == old(outgoing) + if available then [(transId, reply)] else []
    {
      attempts := attempts + [Attempt(transId, reply, available)];
      if available {
        outgoing := outgoing + [(transId, reply)];
      }
    }

    method SendSpinPlanReply(transId: nat, available: bool)
      requires Valid()
      modifies this`attempts, this`outgoing
      ensures attempts == old(attempts) + [Attempt(transId, PlanReply(id, Look().plan), available)]
      ensures outgoing == old(outgoing) + if available then [(transId, PlanReply(id, Look().plan))] else []
    {
      var legs := new Leg[PAYLOAD_LEGS](_ => Leg(0, 0.0));
      for i := 0 to planLen
        invariant legs[..i] == plan[..i]
        invariant attempts == old(attempts) && outgoing == old(outgoing)
      {
        legs[i] := plan[i];
      }
      Write(transId, PlanReply(id, legs[..planLen]), available);
    }

    method SendSpinStateReply(transId: nat, available: bool)
      requires Valid()
      modifies this`attempts, this`outgoing
      ensures var reply := StateReply(id, Code(state), elapsedTimeMsecs, outputValPct);
              && attempts == old(attempts) + [Attempt(transId, reply, available)]
              && outgoing == old(outgoing) + if available then [(transId, reply)] else []
    {
      var s := match state
               case Stopped => STATE_STOPPED
               case Running => STATE_RUNNING
               case Spindown => STATE_SPINNING_DOWN;
      Write(transId, StateReply(id, s, elapsedTimeMsecs, outputValPct), available);
    }

    method SendReturnVal(transId: nat, ret: int, available: bool)
      modifies this`attempts, this`outgoing
      ensures attempts == old(attempts) + [Attempt(transId, ReturnValue(ret), available)]
      ensures outgoing == old(outgoing) + if available then [(transId, ReturnValue(ret))] else []
    {
      Write(transId, ReturnValue(ret), available);
    }
  }

  // ------------------------------------------------------- whole request sequences

  /** The channel after a sequence of requests. */
  function After(c: View, events: seq<Event>): View {
    if events == [] then c
    else Handle(After(c, events[..|events| - 1]), events[|events| - 1]).0
  }

  /** The reply to the k-th request. */
  function ReplyTo(c: View, events: seq<Event>, k: nat): Reply
    requires k < |events|
  {
    Handle(After(c, events[..k]), events[k]).1
  }

  function StateRank(s: ChannelState): nat {
    match s case Stopped => 0 case Running => 1 case Spindown => 2
  }

  /** The first request to run, which is state 1, or the number of requests when there is none. */
  ghost predicate FirstStart(events: seq<Event>, k: nat) {
    && k <= |events|
    && (forall j :: 0 <= j < k ==> events[j] != SetState(1))
    && (k < |events| ==> events[k] == SetState(1))
  }

  /** The last plan that is set among the first k requests, or the given one. */
  function LastPlan(plan: seq<Leg>, events: seq<Event>, k: nat): seq<Leg>
    requires k <= |events|
  {
    if k == 0 then plan
    else if events[k - 1].SetPlan? then events[k - 1].legs
    else LastPlan(plan, events, k - 1)
  }

  lemma {:induction false} LastPlanInPrefix(plan: seq<Leg>, events: seq<Event>, n: nat, k: nat)
    requires k <= n <= |events|
    ensures LastPlan(plan, events[..n], k) == LastPlan(plan, events, k)
  {
    if k > 0 {
      LastPlanInPrefix(plan, events, n, k - 1);
    }
  }

  /** The state says exactly where the requests have got: stopped before the first request to run,
      running from there to the next request to stop, and spinning down ever after. The plan is the
      last one set before the first request to run; nothing changes it later. */
  lemma {:induction false} StateOfHistory(c: View, events: seq<Event>, start: nat)
    requires c.state == Stopped && FirstStart(events, start)
    ensures var after := After(c, events);
            && after.id == c.id && after.elapsedMsecs == c.elapsedMsecs && after.outputPct == c.outputPct
            && after.plan == LastPlan(c.plan, events, start)
            && (after.state == Stopped <==> start == |events|)
            && (after.state == Spindown <==> exists j :: start < j < |events| && events[j] == SetState(0))
    decreases events
  {
    if events != [] {
      var n := |events| - 1;
      var before := events[..n];
      var start' := if start <= n then start else n;
      StateOfHistory(c, before, start');
      LastPlanInPrefix(c.plan, events, n, start');
      assert forall j :: 0 <= j < n ==> before[j] == events[j];
    }
  }

  /** Every reply about the plan reports the plan in force, and a new plan is refused exactly from the
      first request to run on. */
  lemma RepliesTellThePlan(c: View, events: seq<Event>, start: nat, k: nat)
    requires c.state == Stopped && FirstStart(events, start) && k < |events|
    ensures events[k].GetPlan? ==>
              ReplyTo(c, events, k) == PlanReply(c.id, LastPlan(c.plan, events, if k < start then k else start))
    ensures events[k].SetPlan? ==> ReplyTo(c, events, k) == ReturnValue(if k < start then 0 else 1)
  {
    var start' := if k < start then k else start;
    assert forall j :: 0 <= j < k ==> events[..k][j] == events[j];
    StateOfHistory(c, events[..k], start');
    LastPlanInPrefix(c.plan, events, k, start');
  }

  /** Every reply about the state reports the stage the requests have got to, and a change of state is
      refused exactly once the channel spins down. */
  lemma RepliesTellTheState(c: View, events: seq<Event>, start: nat, k: nat)
    requires c.state == Stopped && FirstStart(events, start) && k < |events|
    ensures var spinsDown := exists j :: start < j < k && events[j] == SetState(0);
            var reply := ReplyTo(c, events, k);
            && (events[k].GetState? ==>
                  reply == StateReply(c.id, if k <= start then 0 else if spinsDown then 2 else 1,
                                      c.elapsedMsecs, c.outputPct))
            && (events[k].SetState? ==> reply == ReturnValue(if spinsDown then 1 else 0))
  {
    var start' := if k < start then k else start;
    assert forall j :: 0 <= j < k ==> events[..k][j] == events[j];
    StateOfHistory(c, events[..k], start');
  }

  /** The state only ever moves forward, one stage at a time, and the plan is fixed from the first
      running state on. */
  lemma {:induction false} NeverBack(c: View, events: seq<Event>, k: nat)
    requires k <= |events|
    ensures StateRank(After(c, events[..k]).state) <= StateRank(After(c, events).state)
            <= StateRank(After(c, events[..k]).state) + (|events| - k)
    ensures After(c, events[..k]).state != Stopped ==> After(c, events).plan == After(c, events[..k]).plan
    decreases |events|
  {
    if k == |events| {
      assert events[..k] == events;
    } else {
      var n := |events| - 1;
      assert events[..n][..k] == events[..k];
      NeverBack(c, events[..n], k);
    }
  }
}
