/** Who owns a spinner message, over every interleaving of the three tasks that handle it: the
    receiving dispatcher, the spinner task and the transmitting dispatcher. A step is one pool or
    queue operation (src/spinner/spinner.c, spinner_alloc_message and spinner_free_message;
    src/message_dispatcher.c; rust/src/spinner/spinner.rs; rust/src/bindings/message_dispatcher.rs). */
module Ownership {

  import opened Pools

  const NUM_TYPES: nat := 7

  /** The data pool that the spinner uses for each message type. */
  function ClassOf(t: nat): SlotClass {
    if t == 0 || t == 2 then PlanSlot else SmallSlot
  }

  /** MSG_STRUCT_POOL_SIZE, the sizes of the two data pools, and of the two message queues. */
  datatype Config = Config(numHeaders: nat, numSmall: nat, numPlan: nat, inCap: nat, outCap: nat)

  /** The receiving dispatcher: `Got` holds a bare header, `Holding` a message, `Releasing` a header
      whose slot is already back. */
  datatype RxTask = RxIdle | RxGot(h: nat, t: nat) | RxHolding(h: nat) | RxReleasing(h: nat)

  /** The spinner task: the request it took, and the reply it may be building; `Served` is the
      wrapper of the request about to be dropped. */
  datatype SpTask =
    | SpIdle
    | SpHolding(req: nat)
    | SpGot(req: nat, h: nat, t: nat)
    | SpReplying(req: nat, h: nat)
    | SpServed(req: nat)
    | SpReleasing(req: nat)

  /** The transmitting dispatcher. */
  datatype TxTask = TxIdle | TxHolding(h: nat) | TxReleasing(h: nat)

  datatype State = State(pool: PoolState, rxq: seq<nat>, txq: seq<nat>, rx: RxTask, sp: SpTask, tx: TxTask)

  datatype Step =
    | RxTakeHeader(h: nat, t: nat) | RxTakeSlot(s: Slot) | RxNoSlot
    | RxQueue | RxDiscard | RxGiveHeader
    | SpRead | SpSkip | SpTakeHeader(h: nat, t: nat) | SpTakeSlot(s: Slot) | SpNoSlot
    | SpWrite | SpGiveSlot | SpGiveHeader
    | TxRead | TxGiveSlot | TxGiveHeader

  predicate Enabled(cfg: Config, st: State, step: Step) {
    match step
    case RxTakeHeader(h, t) => st.rx.RxIdle? && h in st.pool.headers && t < NUM_TYPES
    case RxTakeSlot(s) => st.rx.RxGot? && s in st.pool.Slots(ClassOf(st.rx.t))
    case RxNoSlot => st.rx.RxGot? && st.pool.Slots(ClassOf(st.rx.t)) == {}
    case RxQueue => st.rx.RxHolding? && |st.rxq| < cfg.inCap
    case RxDiscard => st.rx.RxHolding? && st.rx.h in st.pool.heap
    case RxGiveHeader => st.rx.RxReleasing?
    case SpRead => st.sp.SpIdle? && st.rxq != []
    case SpSkip => st.sp.SpHolding?
    case SpTakeHeader(h, t) => st.sp.SpHolding? && h in st.pool.headers && t < NUM_TYPES
    case SpTakeSlot(s) => st.sp.SpGot? && s in st.pool.Slots(ClassOf(st.sp.t))
    case SpNoSlot => st.sp.SpGot? && st.pool.Slots(ClassOf(st.sp.t)) == {}
    case SpWrite => st.sp.SpReplying?
    case SpGiveSlot => st.sp.SpServed? && st.sp.req in st.pool.heap
    case SpGiveHeader => st.sp.SpReleasing?
    case TxRead => st.tx.TxIdle? && st.txq != []
    case TxGiveSlot => st.tx.TxHolding? && st.tx.h in st.pool.heap
    case TxGiveHeader => st.tx.TxReleasing?
  }

  function GiveSlotOf(p: PoolState, h: nat): PoolState
    requires h in p.heap
  {
    p.GiveSlot(ClassOf(p.heap[h].msgType), p.heap[h].slot)
  }

  /** The effect of a step. The reply queue is written without looking at the result: a reply that
      does not fit is lost, and its header with it. */
  function Apply(cfg: Config, st: State, step: Step): State
    requires Enabled(cfg, st, step)
  {
    match step
    case RxTakeHeader(h, t) => st.(pool := st.pool.TakeHeader(h), rx := RxGot(h, t))
    case RxTakeSlot(s) =>
      st.(pool := st.pool.TakeSlot(ClassOf(st.rx.t), s, st.rx.h, st.rx.t), rx := RxHolding(st.rx.h))
    case RxNoSlot => st.(pool := st.pool.GiveHeader(st.rx.h), rx := RxIdle)
    case RxQueue => st.(rxq := st.rxq + [st.rx.h], rx := RxIdle)
    case RxDiscard => st.(pool := GiveSlotOf(st.pool, st.rx.h), rx := RxReleasing(st.rx.h))
    case RxGiveHeader => st.(pool := st.pool.GiveHeader(st.rx.h), rx := RxIdle)
    case SpRead => st.(rxq := st.rxq[1..], sp := SpHolding(st.rxq[0]))
    case SpSkip => st.(sp := SpServed(st.sp.req))
    case SpTakeHeader(h, t) => st.(pool := st.pool.TakeHeader(h), sp := SpGot(st.sp.req, h, t))
    case SpTakeSlot(s) =>
      st.(pool := st.pool.TakeSlot(ClassOf(st.sp.t), s, st.sp.h, st.sp.t), sp := SpReplying(st.sp.req, st.sp.h))
    case SpNoSlot => st.(pool := st.pool.GiveHeader(st.sp.h), sp := SpServed(st.sp.req))
    case SpWrite =>
      st.(txq := if |st.txq| < cfg.outCap then st.txq + [st.sp.h] else st.txq, sp := SpServed(st.sp.req))
    case SpGiveSlot => st.(pool := GiveSlotOf(st.pool, st.sp.req), sp := SpReleasing(st.sp.req))
    case SpGiveHeader => st.(pool := st.pool.GiveHeader(st.sp.req), sp := SpIdle)
    case TxRead => st.(txq := st.txq[1..], tx := TxHolding(st.txq[0]))
    case TxGiveSlot => st.(pool := GiveSlotOf(st.pool, st.tx.h), tx := TxReleasing(st.tx.h))
    case TxGiveHeader => st.(pool := st.pool.GiveHeader(st.tx.h), tx := TxIdle)
  }

  function AllHeaders(cfg: Config): set<nat> {
    Below(cfg.numHeaders)
  }

  predicate IsSlot(cfg: Config, s: Slot) {
    s.index < match s.cls case SmallSlot => cfg.numSmall case PlanSlot => cfg.numPlan
  }

  function AllSlots(cfg: Config, c: SlotClass): (slots: set<Slot>)
    ensures forall s :: s in slots <==> IsSlot(cfg, s) && s.cls == c
  {
    set i | i in Below(match c case SmallSlot => cfg.numSmall case PlanSlot => cfg.numPlan) :: Slot(c, i)
  }

  function Initial(cfg: Config): State {
    State(PoolState(AllHeaders(cfg), AllSlots(cfg, SmallSlot), AllSlots(cfg, PlanSlot), map[]),
          [], [], RxIdle, SpIdle, TxIdle)
  }

  /** The state after a schedule; a step that is not enabled when its turn comes does nothing. */
  function After(cfg: Config, schedule: seq<Step>): State {
    if schedule == [] then Initial(cfg)
    else
      var n := |schedule| - 1;
      var st := After(cfg, schedule[..n]);
      if Enabled(cfg, st, schedule[n]) then Apply(cfg, st, schedule[n]) else st
  }

  // --------------------------------------------------------------- ownership

  /** 1 when two headers are the same one. */
  function Is(h: nat, k: nat): nat {
    if h == k then 1 else 0
  }

  function HeldByRx(rx: RxTask, h: nat): nat {
    match rx
    case RxIdle => 0
    case RxGot(k, _) => Is(h, k)
    case RxHolding(k) => Is(h, k)
    case RxReleasing(k) => Is(h, k)
  }

  function HeldBySp(sp: SpTask, h: nat): nat {
    match sp
    case SpIdle => 0
    case SpHolding(req) => Is(h, req)
    case SpGot(req, k, _) => Is(h, req) + Is(h, k)
    case SpReplying(req, k) => Is(h, req) + Is(h, k)
    case SpServed(req) => Is(h, req)
    case SpReleasing(req) => Is(h, req)
  }

  function HeldByTx(tx: TxTask, h: nat): nat {
    match tx case TxIdle => 0 case TxHolding(k) => Is(h, k) case TxReleasing(k) => Is(h, k)
  }

  /** The number of places outside the pool that a header is in. */
  function Places(st: State, h: nat): nat {
    multiset(st.rxq)[h] + multiset(st.txq)[h] + HeldByRx(st.rx, h) + HeldBySp(st.sp, h) + HeldByTx(st.tx, h)
  }

  predicate LiveAtSp(sp: SpTask, h: nat) {
    match sp
    case SpIdle => false
    case SpHolding(req) => h == req
    case SpGot(req, _, _) => h == req
    case SpReplying(req, k) => h == req || h == k
    case SpServed(req) => h == req
    case SpReleasing(_) => false
  }

  /** The header carries a message, and so a data slot. */
  predicate Live(st: State, h: nat) {
    || h in st.rxq || h in st.txq || LiveAtSp(st.sp, h)
    || (st.rx.RxHolding? && st.rx.h == h) || (st.tx.TxHolding? && st.tx.h == h)
  }

  /** What each header adds up to: the places it is in, and the pool. */
  function Account(st: State, h: nat): nat {
    Places(st, h) + if h in st.pool.headers then 1 else 0
  }

  /** Every header is in exactly one place. */
  ghost predicate HeadersConserved(cfg: Config, st: State) {
    forall h: nat :: Account(st, h) == if h < cfg.numHeaders then 1 else 0
  }

  /** Every slot is free, in the pool of its class, or belongs to exactly one live header, whose type
      names that class. */
  ghost predicate SlotsConserved(cfg: Config, st: State) {
    var p := st.pool;
    && (forall s :: s in p.small ==> IsSlot(cfg, s) && s.cls == SmallSlot)
    && (forall s :: s in p.plan ==> IsSlot(cfg, s) && s.cls == PlanSlot)
    && (forall h: nat :: Live(st, h) ==> OwnsSlot(cfg, p, h))
    && (forall h: nat, k: nat :: Live(st, h) && Live(st, k) && h != k ==> p.heap[h].slot != p.heap[k].slot)
    && (forall s: Slot :: IsSlot(cfg, s) && s !in p.small && s !in p.plan ==>
          exists h: nat :: Live(st, h) && p.heap[h].slot == s)
  }

  ghost predicate OwnsSlot(cfg: Config, p: PoolState, h: nat) {
    h in p.heap
    && var hdr := p.heap[h];
       hdr.slot.cls == ClassOf(hdr.msgType) && IsSlot(cfg, hdr.slot) && hdr.slot !in p.small && hdr.slot !in p.plan
  }

  ghost predicate Conserved(cfg: Config, st: State) {
    HeadersConserved(cfg, st) && SlotsConserved(cfg, st)
  }

  lemma TakingASlot(cfg: Config, st: State, st': State, h: nat, t: nat, s: Slot)
    requires SlotsConserved(cfg, st) && !Live(st, h) && s in st.pool.Slots(ClassOf(t))
    requires st'.pool == st.pool.TakeSlot(ClassOf(t), s, h, t)
    requires forall k: nat :: Live(st', k) <==> Live(st, k) || k == h
    ensures SlotsConserved(cfg, st')
  {
    forall r: Slot | IsSlot(cfg, r) && r !in st'.pool.small && r !in st'.pool.plan
      ensures exists k: nat :: Live(st', k) && st'.pool.heap[k].slot == r
    {
      if r == s {
        assert Live(st', h) && st'.pool.heap[h].slot == r;
      } else {
        var k: nat :| Live(st, k) && st.pool.heap[k].slot == r;
        assert Live(st', k) && st'.pool.heap[k].slot == r;
      }
    }
  }

  lemma GivingASlot(cfg: Config, st: State, st': State, h: nat)
    requires SlotsConserved(cfg, st) && Live(st, h)
    requires st'.pool == GiveSlotOf(st.pool, h)
    requires forall k: nat :: Live(st', k) <==> Live(st, k) && k != h
    ensures SlotsConserved(cfg, st')
  {
    forall r: Slot | IsSlot(cfg, r) && r !in st'.pool.small && r !in st'.pool.plan
      ensures exists k: nat :: Live(st', k) && st'.pool.heap[k].slot == r
    {
      var k: nat :| Live(st, k) && st.pool.heap[k].slot == r;
      assert k != h;
      assert Live(st', k) && st'.pool.heap[k].slot == r;
    }
  }

  lemma MovingMessages(cfg: Config, st: State, st': State)
    requires SlotsConserved(cfg, st)
    requires st'.pool.(headers := {}) == st.pool.(headers := {})
    requires forall k: nat :: Live(st', k) <==> Live(st, k)
    ensures SlotsConserved(cfg, st')
  {
    forall r: Slot | IsSlot(cfg, r) && r !in st'.pool.small && r !in st'.pool.plan
      ensures exists k: nat :: Live(st', k) && st'.pool.heap[k].slot == r
    {
      var k: nat :| Live(st, k) && st.pool.heap[k].slot == r;
      assert Live(st', k) && st'.pool.heap[k].slot == r;
    }
  }

  /** While a reply is being written, the request it answers and the reply are both live and outside
      the reply queue. So the queue is at least two headers short of the pool. */
  lemma ReplyQueueHasRoom(cfg: Config, st: State)
    requires HeadersConserved(cfg, st) && st.sp.SpReplying?
    ensures |st.txq| + 2 <= cfg.numHeaders
  {
    var out: multiset<nat> := multiset(st.txq) + multiset{st.sp.req, st.sp.h};
    var all: multiset<nat> := multiset(AllHeaders(cfg));
    forall h: nat
      ensures out[h] <= all[h]
    {
      assert out[h] == multiset(st.txq)[h] + HeldBySp(st.sp, h) <= Places(st, h) <= Account(st, h);
    }
    assert out <= all;
    SmallerBag(out, all);
  }

  lemma SmallerBag(a: multiset<nat>, b: multiset<nat>)
    requires a <= b
    ensures |a| <= |b|
  {
    assert b == a + (b - a);
  }

  // -------------------------------------------------------------------- steps

  lemma QueueHead(q: seq<nat>, h: nat)
    requires q != []
    ensures multiset(q)[h] == Is(h, q[0]) + multiset(q[1..])[h]
    ensures h in q <==> h == q[0] || h in q[1..]
  {
    assert q == [q[0]] + q[1..];
  }

  lemma QueueTail(q: seq<nat>, last: nat, h: nat)
    ensures multiset(q + [last])[h] == multiset(q)[h] + Is(h, last)
    ensures h in q + [last] <==> h in q || h == last
  {
  }

  lemma StepKeepsAccount(cfg: Config, st: State, step: Step, h: nat)
    requires Enabled(cfg, st, step) && Account(st, h) <= 1
    requires step.SpWrite? ==> |st.txq| < cfg.outCap
    ensures Account(Apply(cfg, st, step), h) == Account(st, h)
  {
    match step {
      case SpRead => QueueHead(st.rxq, h);
      case TxRead => QueueHead(st.txq, h);
      case RxQueue => QueueTail(st.rxq, st.rx.h, h);
      case SpWrite => QueueTail(st.txq, st.sp.h, h);
      case _ =>
    }
  }

  lemma StepKeepsHeaders(cfg: Config, st: State, step: Step)
    requires cfg.outCap + 1 >= cfg.numHeaders
    requires HeadersConserved(cfg, st) && Enabled(cfg, st, step)
    ensures HeadersConserved(cfg, Apply(cfg, st, step))
  {
    if step.SpWrite? {
      ReplyQueueHasRoom(cfg, st);
    }
    forall h: nat
      ensures Account(Apply(cfg, st, step), h) == if h < cfg.numHeaders then 1 else 0
    {
      assert Account(st, h) <= 1;
      StepKeepsAccount(cfg, st, step, h);
    }
  }

  /** A header that is held aside is not in any other place. */
  lemma HeldAside(cfg: Config, st: State, h: nat)
    requires HeadersConserved(cfg, st) && HeldByRx(st.rx, h) + HeldBySp(st.sp, h) + HeldByTx(st.tx, h) >= 1
    ensures h !in st.rxq && h !in st.txq
    ensures HeldByRx(st.rx, h) + HeldBySp(st.sp, h) + HeldByTx(st.tx, h) == 1
  {
    assert Account(st, h) <= 1;
  }

  lemma StepKeepsSlots(cfg: Config, st: State, step: Step)
    requires cfg.outCap + 1 >= cfg.numHeaders
    requires Conserved(cfg, st) && Enabled(cfg, st, step)
    ensures SlotsConserved(cfg, Apply(cfg, st, step))
  {
    var st' := Apply(cfg, st, step);
    match step {
      case RxTakeSlot(s) =>
        HeldAside(cfg, st, st.rx.h);
        TakingASlot(cfg, st, st', st.rx.h, st.rx.t, s);
      case SpTakeSlot(s) =>
        HeldAside(cfg, st, st.sp.h);
        TakingASlot(cfg, st, st', st.sp.h, st.sp.t, s);
      case RxDiscard =>
        HeldAside(cfg, st, st.rx.h);
        GivingASlot(cfg, st, st', st.rx.h);
      case SpGiveSlot =>
        HeldAside(cfg, st, st.sp.req);
        GivingASlot(cfg, st, st', st.sp.req);
      case TxGiveSlot =>
        HeldAside(cfg, st, st.tx.h);
        GivingASlot(cfg, st, st', st.tx.h);
      case _ =>
        MovesKeepLive(cfg, st, step);
        MovingMessages(cfg, st, st');
    }
  }

  /** All other steps move messages about, or touch bare headers only. */
  lemma MovesKeepLive(cfg: Config, st: State, step: Step)
    requires cfg.outCap + 1 >= cfg.numHeaders
    requires Conserved(cfg, st) && Enabled(cfg, st, step)
    requires !step.RxTakeSlot? && !step.SpTakeSlot? && !step.RxDiscard? && !step.SpGiveSlot? && !step.TxGiveSlot?
    ensures forall k: nat :: Live(Apply(cfg, st, step), k) <==> Live(st, k)
    ensures Apply(cfg, st, step).pool.(headers := {}) == st.pool.(headers := {})
  {
    var st' := Apply(cfg, st, step);
    if step.SpWrite? {
      ReplyQueueHasRoom(cfg, st);
    }
    forall k: nat
      ensures Live(st', k) <==> Live(st, k)
    {
      match step {
        case SpRead => QueueHead(st.rxq, k);
        case TxRead => QueueHead(st.txq, k);
        case RxQueue => QueueTail(st.rxq, st.rx.h, k);
        case SpWrite => QueueTail(st.txq, st.sp.h, k);
        case _ =>
      }
    }
  }

  // ------------------------------------------------------------------- theorems

  lemma InitialIsConserved(cfg: Config)
    ensures Conserved(cfg, Initial(cfg))
  {
  }

  /** In every reachable state of the three tasks each header is in exactly one place and each slot
      is free in its own pool or owned by exactly one message of its class, provided the reply queue
      is at most one entry shorter than the header pool. */
  lemma {:induction false} NothingIsLost(cfg: Config, schedule: seq<Step>)
    requires cfg.outCap + 1 >= cfg.numHeaders
    ensures Conserved(cfg, After(cfg, schedule))
  {
    if schedule == [] {
      InitialIsConserved(cfg);
    } else {
      var n := |schedule| - 1;
      var st := After(cfg, schedule[..n]);
      NothingIsLost(cfg, schedule[..n]);
      if Enabled(cfg, st, schedule[n]) {
        StepKeepsHeaders(cfg, st, schedule[n]);
        StepKeepsSlots(cfg, st, schedule[n]);
      }
    }
  }

  /** The unchecked write of a reply never meets a full queue. */
  lemma ReplyIsAlwaysQueued(cfg: Config, schedule: seq<Step>)
    requires cfg.outCap + 1 >= cfg.numHeaders
    ensures var st := After(cfg, schedule);
            Enabled(cfg, st, SpWrite) ==>
              && |st.txq| + 2 <= cfg.numHeaders && |st.txq| < cfg.outCap
              && Apply(cfg, st, SpWrite).txq == st.txq + [st.sp.h]
  {
    NothingIsLost(cfg, schedule);
    var st := After(cfg, schedule);
    if st.sp.SpReplying? {
      ReplyQueueHasRoom(cfg, st);
    }
  }

  /** The requests that were queued and those that were taken, and the replies that were written and
      those that were taken to be sent, each in the order of time. */
  datatype Log = Log(queued: seq<nat>, taken: seq<nat>, written: seq<nat>, sent: seq<nat>)

  function Logged(log: Log, st: State, step: Step): Log {
    match step
    case RxQueue => if st.rx.RxHolding? then log.(queued := log.queued + [st.rx.h]) else log
    case SpRead => if st.rxq != [] then log.(taken := log.taken + [st.rxq[0]]) else log
    case SpWrite => if st.sp.SpReplying? then log.(written := log.written + [st.sp.h]) else log
    case TxRead => if st.txq != [] then log.(sent := log.sent + [st.txq[0]]) else log
    case _ => log
  }

  function LogOf(cfg: Config, schedule: seq<Step>): Log {
    if schedule == [] then Log([], [], [], [])
    else
      var n := |schedule| - 1;
      var st := After(cfg, schedule[..n]);
      if Enabled(cfg, st, schedule[n]) then Logged(LogOf(cfg, schedule[..n]), st, schedule[n])
      else LogOf(cfg, schedule[..n])
  }

  /** What went into a queue is what came out of it, followed by what is still in it. */
  ghost predicate InOrder(log: Log, st: State) {
    log.queued == log.taken + st.rxq && log.written == log.sent + st.txq
  }

  lemma StepKeepsOrder(cfg: Config, log: Log, st: State, step: Step)
    requires InOrder(log, st) && Enabled(cfg, st, step) && (step.SpWrite? ==> |st.txq| < cfg.outCap)
    ensures InOrder(Logged(log, st, step), Apply(cfg, st, step))
  {
    match step {
      case SpRead => assert st.rxq == [st.rxq[0]] + st.rxq[1..];
      case TxRead => assert st.txq == [st.txq[0]] + st.txq[1..];
      case _ =>
    }
  }

  /** Requests are served, and replies are sent, in the order in which they were queued, without a gap:
      every reply that was written is sent or still waits. */
  lemma {:induction false} QueuesKeepOrder(cfg: Config, schedule: seq<Step>)
    requires cfg.outCap + 1 >= cfg.numHeaders
    ensures InOrder(LogOf(cfg, schedule), After(cfg, schedule))
  {
    if schedule != [] {
      var n := |schedule| - 1;
      var st := After(cfg, schedule[..n]);
      QueuesKeepOrder(cfg, schedule[..n]);
      ReplyIsAlwaysQueued(cfg, schedule[..n]);
      if Enabled(cfg, st, schedule[n]) {
        StepKeepsOrder(cfg, LogOf(cfg, schedule[..n]), st, schedule[n]);
      }
    }
  }

  // ------------------------------------------------ the reply queue must be that long

  /** There is room for the reply that is about to be written. */
  predicate ReplyFits(cfg: Config, st: State) {
    st.sp.SpReplying? ==> |st.txq| < cfg.outCap
  }

  lemma Then(cfg: Config, schedule: seq<Step>, step: Step) returns (next: seq<Step>)
    requires Enabled(cfg, After(cfg, schedule), step)
    ensures After(cfg, next) == Apply(cfg, After(cfg, schedule), step)
  {
    next := schedule + [step];
    assert next[..|schedule|] == schedule;
  }

  /** The first k messages are replies that wait to be sent, and nothing else is in use. */
  ghost predicate Waiting(cfg: Config, st: State, k: nat) {
    && st.rxq == [] && |st.txq| == k && st.rx.RxIdle? && st.sp.SpIdle? && st.tx.TxIdle?
    && (forall h: nat :: h in st.pool.headers <==> k <= h < cfg.numHeaders)
    && (forall s: Slot :: s in st.pool.small <==> s.cls == SmallSlot && k <= s.index < cfg.numSmall)
  }

  /** A request to read the state, in the last header and the last small slot. */
  function WithRequest(st: State, req: nat): State {
    st.(pool := st.pool.TakeHeader(req).TakeSlot(SmallSlot, Slot(SmallSlot, req), req, 4), sp := SpHolding(req))
  }

  /** A reply to it. */
  function WithReply(st: State, req: nat, h: nat): State {
    st.(pool := st.pool.TakeHeader(h).TakeSlot(SmallSlot, Slot(SmallSlot, h), h, 5), sp := SpReplying(req, h))
  }

  lemma RequestArrives(cfg: Config, schedule: seq<Step>, k: nat, req: nat) returns (next: seq<Step>)
    requires Waiting(cfg, After(cfg, schedule), k)
    requires cfg.inCap >= 1 && k <= req < cfg.numHeaders <= cfg.numSmall
    ensures After(cfg, next) == WithRequest(After(cfg, schedule), req)
  {
    next := Then(cfg, schedule, RxTakeHeader(req, 4));
    next := Then(cfg, next, RxTakeSlot(Slot(SmallSlot, req)));
    next := Then(cfg, next, RxQueue);
    next := Then(cfg, next, SpRead);
  }

  lemma ReplyIsBuilt(cfg: Config, schedule: seq<Step>, st: State, k: nat, req: nat) returns (next: seq<Step>)
    requires Waiting(cfg, st, k) && After(cfg, schedule) == WithRequest(st, req)
    requires k < req < cfg.numHeaders <= cfg.numSmall
    ensures After(cfg, next) == WithReply(WithRequest(st, req), req, k)
  {
    next := Then(cfg, schedule, SpTakeHeader(k, 5));
    next := Then(cfg, next, SpTakeSlot(Slot(SmallSlot, k)));
  }

  lemma ReplyGoesOut(cfg: Config, schedule: seq<Step>, st: State, k: nat, req: nat) returns (next: seq<Step>)
    requires Waiting(cfg, st, k) && After(cfg, schedule) == WithReply(WithRequest(st, req), req, k)
    requires k < cfg.outCap && k < req < cfg.numHeaders <= cfg.numSmall
    ensures Waiting(cfg, After(cfg, next), k + 1)
  {
    next := Then(cfg, schedule, SpWrite);
    next := Then(cfg, next, SpGiveSlot);
    next := Then(cfg, next, SpGiveHeader);
  }

  /** One after the other, k requests can be answered while no reply is sent. */
  lemma RepliesPileUp(cfg: Config, k: nat) returns (schedule: seq<Step>)
    requires cfg.inCap >= 1 && cfg.numHeaders <= cfg.numSmall
    requires k <= cfg.outCap && k + 1 < cfg.numHeaders
    ensures Waiting(cfg, After(cfg, schedule), k)
  {
    if k == 0 {
      schedule := [];
    } else {
      schedule := RepliesPileUp(cfg, k - 1);
      var st, req := After(cfg, schedule), cfg.numHeaders - 1;
      schedule := RequestArrives(cfg, schedule, k - 1, req);
      schedule := ReplyIsBuilt(cfg, schedule, st, k - 1, req);
      schedule := ReplyGoesOut(cfg, schedule, st, k - 1, req);
    }
  }

  lemma ReplyIsLost(cfg: Config) returns (schedule: seq<Step>)
    requires cfg.inCap >= 1 && cfg.outCap + 2 <= cfg.numHeaders <= cfg.numSmall
    ensures !ReplyFits(cfg, After(cfg, schedule))
  {
    schedule := RepliesPileUp(cfg, cfg.outCap);
    var st, req := After(cfg, schedule), cfg.numHeaders - 1;
    schedule := RequestArrives(cfg, schedule, cfg.outCap, req);
    schedule := ReplyIsBuilt(cfg, schedule, st, cfg.outCap, req);
  }

  /** With a small slot for every header, as on both boards, no interleaving loses a reply exactly
      when the reply queue is at most one entry shorter than the header pool. */
  lemma NoReplyLostIff(cfg: Config)
    requires cfg.inCap >= 1 && cfg.numHeaders <= cfg.numSmall
    ensures (forall schedule: seq<Step> :: ReplyFits(cfg, After(cfg, schedule)))
            <==> cfg.outCap + 1 >= cfg.numHeaders
  {
    if cfg.outCap + 1 >= cfg.numHeaders {
      forall schedule: seq<Step>
        ensures ReplyFits(cfg, After(cfg, schedule))
      {
        ReplyIsAlwaysQueued(cfg, schedule);
      }
    } else {
      var schedule := ReplyIsLost(cfg);
    }
  }

  /** A message that is freed was owned, and its slot goes to the pool it was taken from: the messages
      that set a plan (type 0) or reply with one (type 2) have a plan slot, all others a small one. */
  lemma FreesAreSound(cfg: Config, schedule: seq<Step>, h: nat)
    requires cfg.outCap + 1 >= cfg.numHeaders
    requires Live(After(cfg, schedule), h)
    ensures var p := After(cfg, schedule).pool;
            && h !in p.headers && h in p.heap
            && var s := p.heap[h].slot;
               && s !in p.small && s !in p.plan && IsSlot(cfg, s) && s in GiveSlotOf(p, h).Slots(s.cls)
               && (p.heap[h].msgType in {0, 2} <==> s.cls == PlanSlot)
  {
    NothingIsLost(cfg, schedule);
    var st := After(cfg, schedule);
    assert 1 <= Places(st, h) && Account(st, h) <= 1;
  }

  /** Once all queues are empty and all tasks are back at their loops, every pool is full again. */
  lemma QuietMeansFull(cfg: Config, schedule: seq<Step>)
    requires cfg.outCap + 1 >= cfg.numHeaders
    requires var st := After(cfg, schedule);
             st.rxq == [] && st.txq == [] && st.rx.RxIdle? && st.sp.SpIdle? && st.tx.TxIdle?
    ensures var p := After(cfg, schedule).pool;
            && p.headers == AllHeaders(cfg)
            && p.small == AllSlots(cfg, SmallSlot) && p.plan == AllSlots(cfg, PlanSlot)
  {
    NothingIsLost(cfg, schedule);
    var st := After(cfg, schedule);
    assert forall h: nat :: !Live(st, h);
    forall h: nat
      ensures h in st.pool.headers <==> h in AllHeaders(cfg)
    {
      assert Account(st, h) == if h < cfg.numHeaders then 1 else 0;
    }
  }
}
