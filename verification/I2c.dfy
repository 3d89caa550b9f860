/** One transaction of the interrupt-driven I2C master (rust/src/bsp/i2c/mod.rs and i2c_v1.rs).
    The peripheral is its status flags, its data register and the START and STOP requests. */
module I2c {

  import opened Options

  type Byte = bv8

  datatype PeripheralState =
    | StartBitSet
    | AddressSent
    | Transmitting(next: nat)
    | Receiving(next: nat)
    | Done(ret: int)

  /** The status flags that one call of the event handler finds. */
  datatype Flags = Flags(sb: bool, addr: bool, txe: bool, rxne: bool, btf: bool)

  /** The requests made to the peripheral, and the bytes it handed out. */
  datatype Op = Start | Stop | Send(byte: Byte) | Recv(byte: Byte)

  datatype Step = Read(data: seq<Byte>) | Write(data: seq<Byte>)

  datatype Transaction = Transaction(steps: seq<Step>, curr: nat, addr: Byte) {
    predicate OnLastStep() {
      curr + 1 >= |steps|
    }

    function SetByte(pos: nat, b: Byte): Transaction
      requires curr < |steps| && pos < |steps[curr].data|
    {
      this.(steps := steps[curr := steps[curr].(data := steps[curr].data[pos := b])])
    }
  }

  /** The interrupt context; `ops` is what happened since the last reset of the peripheral. */
  datatype Context = Context(trans: Option<Transaction>, state: PeripheralState, ops: seq<Op>)

  function AddressByte(addr: Byte, step: Step): Byte {
    (addr << 1) | (if step.Read? then 1 else 0)
  }

  // -------------------------------------------------------- the state machine

  /** What the driver demands of its callers. */
  predicate ValidSteps(steps: seq<Step>) {
    steps != [] && forall k :: 0 <= k < |steps| ==> steps[k].data != []
  }

  /** The state invariant: which positions can occur in which step. */
  predicate StateFits(step: Step, state: PeripheralState) {
    match state
    case Transmitting(n) => step.Write? && 1 <= n <= |step.data|
    case Receiving(n) => step.Read? && (n == 0 || n + 2 <= |step.data|)
    case _ => true
  }

  predicate Valid(c: Context) {
    match c.trans
    case None => c.state.Done?
    case Some(t) => ValidSteps(t.steps) && t.curr < |t.steps| && StateFits(t.steps[t.curr], c.state)
  }

  /** The end of a step: STOP after the last one, a repeated START otherwise. */
  function EndStep(c: Context, t: Transaction): Context {
    if t.OnLastStep() then Context(Some(t), Done(0), c.ops + [Stop])
    else Context(Some(t.(curr := t.curr + 1)), StartBitSet, c.ops + [Start])
  }

  /** rust_i2c_interrupt_handler. `b0` and `b1` are what the data register yields when it is read. */
  function OnEvent(c: Context, f: Flags, b0: Byte, b1: Byte): Context
    requires Valid(c)
  {
    if c.trans.None? then c
    else
      var t := c.trans.value;
      var step := t.steps[t.curr];
      match c.state
      case StartBitSet =>
        if !f.sb then c
        else c.(state := AddressSent, ops := c.ops + [Send(AddressByte(t.addr, step))])
      case AddressSent =>
        if !f.addr then c
        else if step.Read? then c.(state := Receiving(0))
        else c.(state := Transmitting(1), ops := c.ops + [Send(step.data[0])])
      case Transmitting(n) =>
        if (n >= |step.data| && !f.btf) || !f.txe then c
        else if n >= |step.data| then EndStep(c, t)
        else c.(state := Transmitting(n + 1), ops := c.ops + [Send(step.data[n])])
      case Receiving(n) =>
        if n == |step.data| - 1 then
          if !f.rxne then c
          else EndStep(c.(ops := c.ops + [Recv(b0)]), t.SetByte(n, b0))
        else if n == |step.data| - 2 then
          if !f.btf then c
          else
            var t' := t.SetByte(n, b0).SetByte(n + 1, b1);
            if t.OnLastStep() then
              Context(Some(t'), Done(0), c.ops + [Stop, Recv(b0), Recv(b1)])
            else EndStep(c.(ops := c.ops + [Recv(b0), Recv(b1)]), t')
        else
          if !f.rxne then c
          else Context(Some(t.SetByte(n, b0)), Receiving(n + 1), c.ops + [Recv(b0)])
      case Done(_) => c
  }

  /** rust_i2c_interrupt_error_handler */
  function OnError(c: Context): Context {
    c.(state := Done(-1))
  }

  lemma OnEventKeepsValid(c: Context, f: Flags, b0: Byte, b1: Byte)
    requires Valid(c)
    ensures Valid(OnEvent(c, f, b0, b1))
  {
  }

  // ----------------------------------------------------------------- progress

  /** Room for one START, one address and the bytes of each step from the k-th on. */
  function Work(steps: seq<Step>, k: nat): nat
    decreases |steps| - k
  {
    if k >= |steps| then 0 else |steps[k].data| + 3 + Work(steps, k + 1)
  }

  /** What is left to do of the current step. */
  function Left(step: Step, state: PeripheralState): nat
    requires StateFits(step, state)
  {
    match state
    case StartBitSet => |step.data| + 3
    case AddressSent => |step.data| + 2
    case Transmitting(n) => |step.data| - n + 1
    case Receiving(n) => |step.data| - n + 1
    case Done(_) => 0
  }

  function Measure(c: Context): nat
    requires Valid(c)
  {
    match c.trans
    case None => 0
    case Some(t) =>
      if c.state.Done? then 0 else Left(t.steps[t.curr], c.state) + Work(t.steps, t.curr + 1)
  }

  lemma {:induction false} WorkIsOfLengths(steps: seq<Step>, other: seq<Step>, k: nat)
    requires |steps| == |other|
    requires forall i :: k <= i < |steps| ==> |steps[i].data| == |other[i].data|
    ensures Work(steps, k) == Work(other, k)
    decreases |steps| - k
  {
    if k < |steps| {
      WorkIsOfLengths(steps, other, k + 1);
    }
  }

  /** Every event that changes the state of a transaction brings it nearer to its end. */
  lemma EventMakesProgress(c: Context, f: Flags, b0: Byte, b1: Byte)
    requires Valid(c)
    ensures Valid(OnEvent(c, f, b0, b1))
    ensures var c' := OnEvent(c, f, b0, b1);
            c'.state != c.state ==> Measure(c') < Measure(c)
    ensures OnEvent(c, f, b0, b1).state == c.state ==> OnEvent(c, f, b0, b1) == c
  {
    OnEventKeepsValid(c, f, b0, b1);
    var c' := OnEvent(c, f, b0, b1);
    if c.trans.Some? {
      var t, t' := c.trans.value, c'.trans.value;
      WorkIsOfLengths(t.steps, t'.steps, t.curr + 1);
    }
  }

  /** One per byte, and three per step. */
  lemma {:induction false} WorkIs(steps: seq<Step>, k: nat)
    requires k <= |steps|
    ensures Work(steps, k) == Bytes(steps, k) + 3 * (|steps| - k)
    decreases |steps| - k
  {
    if k < |steps| {
      WorkIs(steps, k + 1);
    }
  }

  /** The bytes to transfer from the k-th step on. */
  function Bytes(steps: seq<Step>, k: nat): nat
    decreases |steps| - k
  {
    if k >= |steps| then 0 else |steps[k].data| + Bytes(steps, k + 1)
  }

  /** The flag that an event has to bring for the transaction to go on: the START is out; the address
      is acknowledged; there is room for a byte, or the last one is out; a byte has arrived, or the
      last two have. */
  predicate Ready(step: Step, state: PeripheralState, f: Flags) {
    match state
    case StartBitSet => f.sb
    case AddressSent => f.addr
    case Transmitting(n) => f.txe && (n < |step.data| || f.btf)
    case Receiving(n) => if n + 2 == |step.data| then f.btf else f.rxne
    case Done(_) => false
  }

  /** An event takes the transaction on exactly when it brings that flag, and has no effect at all
      when it does not. */
  lemma AdvancesIff(c: Context, f: Flags, b0: Byte, b1: Byte)
    requires Valid(c) && c.trans.Some?
    ensures var step, c' := c.trans.value.steps[c.trans.value.curr], OnEvent(c, f, b0, b1);
            if Ready(step, c.state, f) then c'.state != c.state && c'.state != Done(-1) else c' == c
  {
  }

  const ALL_FLAGS := Flags(true, true, true, true, true)

  lemma ReadyAtAllFlags(step: Step, state: PeripheralState)
    ensures Ready(step, state, ALL_FLAGS) <==> !state.Done?
  {
  }

  // --------------------------------------------------------- the bus protocol

  function Sends(data: seq<Byte>): seq<Op> {
    if data == [] then [] else Sends(data[..|data| - 1]) + [Send(data[|data| - 1])]
  }

  function Recvs(data: seq<Byte>): seq<Op> {
    if data == [] then [] else Recvs(data[..|data| - 1]) + [Recv(data[|data| - 1])]
  }

  /** A step on the bus: START, the address with the direction bit, the bytes in order. */
  function StepOps(addr: Byte, step: Step): seq<Op> {
    [Start, Send(AddressByte(addr, step))]
    + (if step.Read? then Recvs(step.data) else Sends(step.data))
  }

  /** The combined format: all steps, without the STOP that closes it. */
  function BusOps(addr: Byte, steps: seq<Step>): seq<Op> {
    if steps == [] then []
    else BusOps(addr, steps[..|steps| - 1]) + StepOps(addr, steps[|steps| - 1])
  }

  /** A finished transaction: the combined format with one STOP. The driver requests the STOP behind
      the last byte, or in front of the last two bytes that it reads, while the second of them is
      still on its way. */
  ghost predicate Finished(addr: Byte, steps: seq<Step>, ops: seq<Op>) {
    var all := BusOps(addr, steps);
    || ops == all + [Stop]
    || (|all| >= 2 && all[|all| - 2].Recv? && all[|all| - 1].Recv?
        && ops == all[..|all| - 2] + [Stop] + all[|all| - 2..])
  }

  /** What was done of the current step. */
  function Partial(addr: Byte, step: Step, state: PeripheralState): seq<Op>
    requires StateFits(step, state)
  {
    match state
    case StartBitSet => [Start]
    case AddressSent => [Start, Send(AddressByte(addr, step))]
    case Transmitting(n) => [Start, Send(AddressByte(addr, step))] + Sends(step.data[..n])
    case Receiving(n) => [Start, Send(AddressByte(addr, step))] + Recvs(step.data[..n])
    case Done(_) => StepOps(addr, step)
  }

  /** How far a transaction got: read steps up to the current byte are filled, and everything else
      is as the caller passed it. */
  ghost predicate Filled(given: seq<Step>, t: Transaction, state: PeripheralState)
    requires t.curr < |t.steps|
  {
    && |t.steps| == |given|
    && (forall k :: 0 <= k < |given| ==> SameShape(given[k], t.steps[k]))
    && (forall k :: t.curr < k < |given| ==> t.steps[k] == given[k])
    && (match state
        case Receiving(n) =>
          n <= |t.steps[t.curr].data| && t.steps[t.curr].data[n..] == given[t.curr].data[n..]
        case Done(_) => true
        case _ => t.steps[t.curr] == given[t.curr])
  }

  /** Same direction, same length, and the same bytes when they are to be written. */
  ghost predicate SameShape(given: Step, step: Step) {
    given.Read? == step.Read? && |given.data| == |step.data| && (given.Write? ==> step == given)
  }

  /** The refinement relation between the driver and the bus protocol. */
  ghost predicate Refines(given: seq<Step>, c: Context) {
    && Valid(c) && c.trans.Some?
    && var t := c.trans.value;
       && Filled(given, t, c.state)
       && (match c.state
           case Done(ret) => ret == 0 ==> t.OnLastStep() && Finished(t.addr, t.steps, c.ops)
           case _ => c.ops == BusOps(t.addr, t.steps[..t.curr]) + Partial(t.addr, t.steps[t.curr], c.state))
  }

  lemma BusOpsNext(addr: Byte, steps: seq<Step>, k: nat)
    requires k < |steps|
    ensures BusOps(addr, steps[..k + 1]) == BusOps(addr, steps[..k]) + StepOps(addr, steps[k])
  {
    assert steps[..k + 1][..k] == steps[..k];
  }

  /** Finishing a step whose last byte was written, or read alone. */
  lemma StepFinishes(given: seq<Step>, c: Context, t: Transaction)
    requires ValidSteps(t.steps) && t.curr < |t.steps| && Filled(given, t, Done(0))
    requires c.ops == BusOps(t.addr, t.steps[..t.curr]) + StepOps(t.addr, t.steps[t.curr])
    ensures Refines(given, EndStep(c, t))
  {
    BusOpsNext(t.addr, t.steps, t.curr);
    if t.OnLastStep() {
      assert t.steps[..t.curr + 1] == t.steps;
    }
  }

  lemma SendsNext(data: seq<Byte>, n: nat)
    requires n < |data|
    ensures Sends(data[..n + 1]) == Sends(data[..n]) + [Send(data[n])]
  {
    assert data[..n + 1][..n] == data[..n];
  }

  lemma RecvsNext(data: seq<Byte>, n: nat)
    requires n < |data|
    ensures Recvs(data[..n + 1]) == Recvs(data[..n]) + [Recv(data[n])]
  {
    assert data[..n + 1][..n] == data[..n];
  }

  // --------------------------------------------------------------- refinement

  lemma TransmitRefines(given: seq<Step>, c: Context, f: Flags)
    requires Refines(given, c) && c.state.Transmitting?
    ensures Refines(given, OnEvent(c, f, 0, 0))
  {
    var t := c.trans.value;
    var step, n := t.steps[t.curr], c.state.next;
    if n >= |step.data| {
      assert step.data[..n] == step.data;
      StepFinishes(given, c, t);
    } else {
      SendsNext(step.data, n);
      assert Partial(t.addr, step, Transmitting(n + 1)) == Partial(t.addr, step, c.state) + [Send(step.data[n])];
    }
  }

  lemma UpdateAt(data: seq<Byte>, given: seq<Byte>, n: nat, b: Byte)
    requires n < |data| == |given| && data[n..] == given[n..]
    ensures data[n := b][..n] == data[..n] && data[n := b][n + 1..] == given[n + 1..]
  {
    assert data[n := b][n + 1..] == data[n..][1..];
    assert given[n + 1..] == given[n..][1..];
  }

  /** One more byte of a read step. */
  lemma NextByte(given: seq<Step>, c: Context, b: Byte, t': Transaction)
    requires Refines(given, c) && c.state.Receiving?
    requires c.state.next + 2 < |c.trans.value.steps[c.trans.value.curr].data|
    requires t' == c.trans.value.SetByte(c.state.next, b)
    ensures Filled(given, t', Receiving(c.state.next + 1))
    ensures c.ops + [Recv(b)] == BusOps(t'.addr, t'.steps[..t'.curr])
                                 + Partial(t'.addr, t'.steps[t'.curr], Receiving(c.state.next + 1))
  {
    var t, n := c.trans.value, c.state.next;
    var step, step' := t.steps[t.curr], t'.steps[t.curr];
    assert t'.steps[..t.curr] == t.steps[..t.curr];
    UpdateAt(step.data, given[t.curr].data, n, b);
    RecvsNext(step'.data, n);
    assert step'.data[n] == b;
    var head := [Start, Send(AddressByte(t.addr, step))];
    RegroupRight(BusOps(t.addr, t.steps[..t.curr]), head, Recvs(step.data[..n]), [Recv(b)]);
  }

  /** A byte that is not among the last two. */
  lemma ReceiveRefines(given: seq<Step>, c: Context, b: Byte)
    requires Refines(given, c) && c.state.Receiving?
    requires c.state.next + 2 < |c.trans.value.steps[c.trans.value.curr].data|
    ensures var t := c.trans.value;
            Refines(given, Context(Some(t.SetByte(c.state.next, b)), Receiving(c.state.next + 1), c.ops + [Recv(b)]))
  {
    NextByte(given, c, b, c.trans.value.SetByte(c.state.next, b));
  }

  /** The only byte of a step. */
  lemma ReceiveOnlyRefines(given: seq<Step>, c: Context, b: Byte)
    requires Refines(given, c) && c.state == Receiving(0)
    requires |c.trans.value.steps[c.trans.value.curr].data| == 1
    ensures Refines(given, EndStep(c.(ops := c.ops + [Recv(b)]), c.trans.value.SetByte(0, b)))
  {
    var t := c.trans.value;
    var t' := t.SetByte(0, b);
    var data := t'.steps[t.curr].data;
    assert t'.steps[..t.curr] == t.steps[..t.curr];
    assert data == [b] && data[..0] == [] && t.steps[t.curr].data[..0] == [];
    assert StepOps(t.addr, t'.steps[t.curr]) == Partial(t.addr, t.steps[t.curr], c.state) + [Recv(b)];
    StepFinishes(given, c.(ops := c.ops + [Recv(b)]), t');
  }

  /** The operations of a read step of two or more bytes, the last two apart. */
  lemma ReadStepOps(addr: Byte, step: Step, n: nat)
    requires step.Read? && |step.data| == n + 2
    ensures StepOps(addr, step) == [Start, Send(AddressByte(addr, step))] + Recvs(step.data[..n])
                                   + [Recv(step.data[n]), Recv(step.data[n + 1])]
  {
    RecvsNext(step.data, n);
    RecvsNext(step.data, n + 1);
    assert step.data[..n + 2] == step.data;
  }

  /** The last two bytes of a step complete its operations. */
  lemma LastTwoBytes(given: seq<Step>, c: Context, b0: Byte, b1: Byte, t': Transaction)
    requires Refines(given, c) && c.state.Receiving?
    requires c.state.next + 2 == |c.trans.value.steps[c.trans.value.curr].data|
    requires t' == c.trans.value.SetByte(c.state.next, b0).SetByte(c.state.next + 1, b1)
    ensures ValidSteps(t'.steps) && Filled(given, t', Done(0))
    ensures c.ops + [Recv(b0), Recv(b1)] == BusOps(t'.addr, t'.steps[..t'.curr]) + StepOps(t'.addr, t'.steps[t'.curr])
  {
    var t, n := c.trans.value, c.state.next;
    var step, step' := t.steps[t.curr], t'.steps[t.curr];
    assert t'.steps[..t.curr] == t.steps[..t.curr];
    assert step'.data[..n] == step.data[..n];
    ReadStepOps(t.addr, step', n);
    Regroup(BusOps(t.addr, t.steps[..t.curr]), [Start, Send(AddressByte(t.addr, step))], Recvs(step.data[..n]),
            [Recv(b0), Recv(b1)]);
  }

  lemma RegroupRight(a: seq<Op>, b: seq<Op>, c: seq<Op>, d: seq<Op>)
    ensures a + (b + c) + d == a + (b + (c + d))
  {
  }

  lemma Regroup(a: seq<Op>, b: seq<Op>, c: seq<Op>, d: seq<Op>)
    ensures a + (b + c) + d == a + (b + c + d)
  {
  }

  lemma ReceiveTwoRefines(given: seq<Step>, c: Context, b0: Byte, b1: Byte)
    requires Refines(given, c) && c.state.Receiving?
    requires c.state.next + 2 == |c.trans.value.steps[c.trans.value.curr].data|
    ensures var t := c.trans.value;
            var t' := t.SetByte(c.state.next, b0).SetByte(c.state.next + 1, b1);
            Refines(given, if t.OnLastStep() then Context(Some(t'), Done(0), c.ops + [Stop, Recv(b0), Recv(b1)])
                           else EndStep(c.(ops := c.ops + [Recv(b0), Recv(b1)]), t'))
  {
    var t := c.trans.value;
    var t' := t.SetByte(c.state.next, b0).SetByte(c.state.next + 1, b1);
    LastTwoBytes(given, c, b0, b1, t');
    if t.OnLastStep() {
      StopBeforeLastTwo(given, c.ops, b0, b1, t');
    } else {
      StepFinishes(given, c.(ops := c.ops + [Recv(b0), Recv(b1)]), t');
    }
  }

  lemma StopBeforeLastTwo(given: seq<Step>, ops: seq<Op>, b0: Byte, b1: Byte, t: Transaction)
    requires ValidSteps(t.steps) && t.curr < |t.steps| && t.OnLastStep() && Filled(given, t, Done(0))
    requires ops + [Recv(b0), Recv(b1)] == BusOps(t.addr, t.steps[..t.curr]) + StepOps(t.addr, t.steps[t.curr])
    ensures Refines(given, Context(Some(t), Done(0), ops + [Stop, Recv(b0), Recv(b1)]))
  {
    BusOpsNext(t.addr, t.steps, t.curr);
    assert t.steps[..t.curr + 1] == t.steps;
    var all := BusOps(t.addr, t.steps);
    assert all == ops + [Recv(b0), Recv(b1)];
    assert all[..|all| - 2] == ops && all[|all| - 2..] == [Recv(b0), Recv(b1)];
    assert ops + [Stop, Recv(b0), Recv(b1)] == ops + [Stop] + [Recv(b0), Recv(b1)];
  }

  /** The driver refines the bus protocol, event by event, whatever the flags and the bytes. */
  lemma EventRefines(given: seq<Step>, c: Context, f: Flags, b0: Byte, b1: Byte)
    requires Refines(given, c)
    ensures Refines(given, OnEvent(c, f, b0, b1))
  {
    var t := c.trans.value;
    var step := t.steps[t.curr];
    match c.state {
      case Transmitting(n) =>
        TransmitRefines(given, c, f);
      case Receiving(n) =>
        if n + 2 < |step.data| {
          ReceiveRefines(given, c, b0);
        } else if n + 2 == |step.data| {
          ReceiveTwoRefines(given, c, b0, b1);
        } else {
          ReceiveOnlyRefines(given, c, b0);
        }
      case AddressSent =>
        AddressRefines(given, c, f);
      case _ =>
    }
  }

  lemma AddressRefines(given: seq<Step>, c: Context, f: Flags)
    requires Refines(given, c) && c.state.AddressSent?
    ensures Refines(given, OnEvent(c, f, 0, 0))
  {
    var t := c.trans.value;
    var step := t.steps[t.curr];
    assert step.data[..0] == [];
    SendsNext(step.data, 0);
    assert Partial(t.addr, step, AddressSent) + [] == Partial(t.addr, step, AddressSent);
    if step.Write? {
      assert Partial(t.addr, step, Transmitting(1)) == Partial(t.addr, step, AddressSent) + [Send(step.data[0])];
    }
  }

  /** run_transaction, once it holds the bus. */
  function Begin(addr: Byte, steps: seq<Step>): Context {
    Context(Some(Transaction(steps, 0, addr)), StartBitSet, [Start])
  }

  lemma BeginRefines(addr: Byte, steps: seq<Step>)
    requires ValidSteps(steps)
    ensures Refines(steps, Begin(addr, steps))
  {
    assert steps[..0] == [];
  }

  // --------------------------------------------- what a finished run amounts to

  function CountStarts(ops: seq<Op>): nat {
    if ops == [] then 0 else CountStarts(ops[..|ops| - 1]) + (if ops[|ops| - 1].Start? then 1 else 0)
  }

  function CountStops(ops: seq<Op>): nat {
    if ops == [] then 0 else CountStops(ops[..|ops| - 1]) + (if ops[|ops| - 1].Stop? then 1 else 0)
  }

  function WithoutStops(ops: seq<Op>): seq<Op> {
    if ops == [] then []
    else WithoutStops(ops[..|ops| - 1]) + (if ops[|ops| - 1].Stop? then [] else [ops[|ops| - 1]])
  }

  lemma {:induction false} CountsOfConcat(a: seq<Op>, b: seq<Op>)
    ensures CountStarts(a + b) == CountStarts(a) + CountStarts(b)
    ensures CountStops(a + b) == CountStops(a) + CountStops(b)
    ensures WithoutStops(a + b) == WithoutStops(a) + WithoutStops(b)
  {
    if b == [] {
      assert a + b == a;
    } else {
      var n := |b| - 1;
      assert (a + b)[..|a + b| - 1] == a + b[..n];
      CountsOfConcat(a, b[..n]);
    }
  }

  lemma {:induction false} CountsOfBytes(data: seq<Byte>)
    ensures CountStarts(Sends(data)) == CountStops(Sends(data)) == 0
    ensures CountStarts(Recvs(data)) == CountStops(Recvs(data)) == 0
    ensures WithoutStops(Sends(data)) == Sends(data) && WithoutStops(Recvs(data)) == Recvs(data)
  {
    if data != [] {
      CountsOfBytes(data[..|data| - 1]);
    }
  }

  lemma {:induction false} CountsOfBus(addr: Byte, steps: seq<Step>)
    ensures CountStarts(BusOps(addr, steps)) == |steps| && CountStops(BusOps(addr, steps)) == 0
    ensures WithoutStops(BusOps(addr, steps)) == BusOps(addr, steps)
  {
    if steps != [] {
      var n := |steps| - 1;
      CountsOfBus(addr, steps[..n]);
      CountsOfStep(addr, steps[n]);
      CountsOfConcat(BusOps(addr, steps[..n]), StepOps(addr, steps[n]));
    }
  }

  lemma CountsOfOne(op: Op)
    ensures CountStarts([op]) == (if op.Start? then 1 else 0) && CountStops([op]) == (if op.Stop? then 1 else 0)
    ensures WithoutStops([op]) == if op.Stop? then [] else [op]
  {
    assert [op][..0] == [];
  }

  lemma CountsOfCons(op: Op, rest: seq<Op>)
    requires !op.Stop? && CountStops(rest) == 0 && WithoutStops(rest) == rest
    ensures CountStarts([op] + rest) == (if op.Start? then 1 else 0) + CountStarts(rest)
    ensures CountStops([op] + rest) == 0 && WithoutStops([op] + rest) == [op] + rest
  {
    CountsOfOne(op);
    CountsOfConcat([op], rest);
  }

  lemma CountsOfStep(addr: Byte, step: Step)
    ensures CountStarts(StepOps(addr, step)) == 1 && CountStops(StepOps(addr, step)) == 0
    ensures WithoutStops(StepOps(addr, step)) == StepOps(addr, step)
  {
    CountsOfBytes(step.data);
    CountsOfHead(Send(AddressByte(addr, step)), if step.Read? then Recvs(step.data) else Sends(step.data));
  }

  lemma CountsOfHead(address: Op, bytes: seq<Op>)
    requires address.Send? && CountStarts(bytes) == CountStops(bytes) == 0 && WithoutStops(bytes) == bytes
    ensures CountStarts([Start, address] + bytes) == 1 && CountStops([Start, address] + bytes) == 0
    ensures WithoutStops([Start, address] + bytes) == [Start, address] + bytes
  {
    var tail := [address] + bytes;
    CountsOfCons(address, bytes);
    CountsOfCons(Start, tail);
    assert [Start, address] + bytes == [Start] + tail;
  }

  lemma CountsWithStop(head: seq<Op>, tail: seq<Op>)
    ensures CountStarts(head + [Stop] + tail) == CountStarts(head + tail)
    ensures CountStops(head + [Stop] + tail) == CountStops(head + tail) + 1
    ensures WithoutStops(head + [Stop] + tail) == WithoutStops(head + tail)
  {
    CountsOfOne(Stop);
    CountsOfConcat(head, tail);
    CountsOfConcat(head, [Stop]);
    CountsOfConcat(head + [Stop], tail);
    assert WithoutStops(head) + [] == WithoutStops(head);
  }

  // ------------------------------------------------------------ the address bytes

  /** In numbers: an odd byte selects the device for reading, an even one for writing. */
  ghost predicate Selects(b: Byte, addr: Byte, step: Step) {
    && (b as int % 2 == 1 <==> step.Read?)
    && (addr as int < 128 ==> b as int / 2 == addr as int)
  }

  lemma AddressByteSelects(addr: Byte, step: Step)
    ensures Selects(AddressByte(addr, step), addr, step)
  {
    var dir: Byte := if step.Read? then 1 else 0;
    LowBit(addr, dir);
    if addr as int < 128 {
      SevenBits(addr, dir);
    }
  }

  lemma LowBit(addr: Byte, dir: Byte)
    requires dir == 0 || dir == 1
    ensures ((addr << 1) | dir) as int % 2 == dir as int
  {
  }

  lemma SevenBits(addr: Byte, dir: Byte)
    requires addr < 128 && (dir == 0 || dir == 1)
    ensures ((addr << 1) | dir) as int == 2 * addr as int + dir as int
  {
  }

  /** Behind the k-th START comes the byte that selects the device for the k-th step. */
  ghost predicate Addressed(addr: Byte, steps: seq<Step>, ops: seq<Op>) {
    forall i :: 0 <= i < |ops| && ops[i].Start? ==> AddressedAt(addr, steps, ops, i, CountStarts(ops[..i]))
  }

  ghost predicate AddressedAt(addr: Byte, steps: seq<Step>, ops: seq<Op>, i: nat, k: nat) {
    k < |steps| && i + 1 < |ops| && ops[i + 1].Send? && Selects(ops[i + 1].byte, addr, steps[k])
  }

  lemma {:induction false} BytesAreNoStarts(data: seq<Byte>)
    ensures forall j :: 0 <= j < |Sends(data)| ==> Sends(data)[j].Send?
    ensures forall j :: 0 <= j < |Recvs(data)| ==> Recvs(data)[j].Recv?
  {
    if data != [] {
      BytesAreNoStarts(data[..|data| - 1]);
    }
  }

  lemma {:induction false} BusIsAddressed(addr: Byte, steps: seq<Step>)
    ensures Addressed(addr, steps, BusOps(addr, steps))
  {
    if steps != [] {
      var n := |steps| - 1;
      BusIsAddressed(addr, steps[..n]);
      CountsOfBus(addr, steps[..n]);
      StepIsAddressed(addr, steps, BusOps(addr, steps[..n]), StepOps(addr, steps[n]));
    }
  }

  lemma StepIsAddressed(addr: Byte, steps: seq<Step>, head: seq<Op>, tail: seq<Op>)
    requires steps != [] && Addressed(addr, steps[..|steps| - 1], head) && CountStarts(head) == |steps| - 1
    requires tail == StepOps(addr, steps[|steps| - 1])
    ensures Addressed(addr, steps, head + tail)
  {
    var ops, n := head + tail, |steps| - 1;
    BytesAreNoStarts(steps[n].data);
    AddressByteSelects(addr, steps[n]);
    forall i | 0 <= i < |ops| && ops[i].Start?
      ensures AddressedAt(addr, steps, ops, i, CountStarts(ops[..i]))
    {
      if i < |head| {
        assert ops[..i] == head[..i] && ops[i] == head[i];
        assert AddressedAt(addr, steps[..n], head, i, CountStarts(head[..i]));
      } else {
        assert ops[i] == tail[i - |head|];
        assert i == |head| && ops[..i] == head;
      }
    }
  }

  /** A STOP behind the bytes, or in front of the last two that are read, is in nobody's way. */
  lemma StopKeepsAddressed(addr: Byte, steps: seq<Step>, all: seq<Op>, n: nat, ops: seq<Op>)
    requires Addressed(addr, steps, all) && n <= |all| && ops == all[..n] + [Stop] + all[n..]
    requires forall i :: n < i < |ops| ==> ops[i].Recv?
    ensures Addressed(addr, steps, ops)
  {
    assert n < |all| ==> ops[n + 1] == all[n];
    forall i | 0 <= i < |ops| && ops[i].Start?
      ensures AddressedAt(addr, steps, ops, i, CountStarts(ops[..i]))
    {
      assert i < n && ops[i] == all[i] && ops[..i] == all[..i];
      assert AddressedAt(addr, steps, all, i, CountStarts(all[..i]));
    }
  }

  /** A finished run has one START per step and exactly one STOP; without the STOP it is the combined
      format of all steps, the read ones with the values that were received; and no START follows
      the STOP. Behind each START goes the byte that selects the device for its step. */
  lemma FinishedMeans(addr: Byte, steps: seq<Step>, ops: seq<Op>)
    requires Finished(addr, steps, ops)
    ensures CountStarts(ops) == |steps| && CountStops(ops) == 1
    ensures WithoutStops(ops) == BusOps(addr, steps)
    ensures exists k :: 0 <= k < |ops| && ops[k].Stop? && forall i :: k < i < |ops| ==> ops[i].Recv?
    ensures Addressed(addr, steps, ops)
  {
    var all := BusOps(addr, steps);
    CountsOfBus(addr, steps);
    BusIsAddressed(addr, steps);
    var n := StopPosition(all, ops);
    StopKeepsAddressed(addr, steps, all, n, ops);
    OneStop(all[..n], all[n..], all, ops);
  }

  lemma OneStop(head: seq<Op>, tail: seq<Op>, all: seq<Op>, ops: seq<Op>)
    requires all == head + tail && ops == head + [Stop] + tail
    requires CountStops(all) == 0 && WithoutStops(all) == all
    ensures CountStarts(ops) == CountStarts(all) && CountStops(ops) == 1 && WithoutStops(ops) == all
  {
    CountsWithStop(head, tail);
  }

  lemma StopPosition(all: seq<Op>, ops: seq<Op>) returns (n: nat)
    requires || ops == all + [Stop]
             || (|all| >= 2 && all[|all| - 2].Recv? && all[|all| - 1].Recv?
                 && ops == all[..|all| - 2] + [Stop] + all[|all| - 2..])
    ensures n <= |all| && all[..n] + all[n..] == all && ops == all[..n] + [Stop] + all[n..]
    ensures n < |ops| && ops[n].Stop? && forall i :: n < i < |ops| ==> ops[i].Recv?
  {
    if ops == all + [Stop] {
      n := |all|;
    } else {
      n := |all| - 2;
      assert ops[n + 1] == all[n] && ops[n + 2] == all[n + 1];
    }
  }
}
