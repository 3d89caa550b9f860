/** The interrupt context and its users, with the callers' buffers as arrays
    (rust/src/bsp/i2c/mod.rs, run_transaction; rust/src/bsp/i2c/i2c_v1.rs, the handlers). */
module I2cDriver {

  import opened Options
  import opened I2c

  /** A step lends its buffer to the driver. */
  datatype StepRef = StepRef(isRead: bool, buf: array<Byte>)

  datatype TransactionRef = TransactionRef(steps: seq<StepRef>, currStep: nat, deviceAddr: Byte)

  function StepOf(s: StepRef): Step
    reads s.buf
  {
    if s.isRead then Read(s.buf[..]) else Write(s.buf[..])
  }

  function Buffers(steps: seq<StepRef>): set<array<Byte>> {
    set s | s in steps :: s.buf
  }

  ghost function StepsOf(steps: seq<StepRef>): (r: seq<Step>)
    reads Buffers(steps)
    ensures |r| == |steps|
    ensures forall k :: 0 <= k < |r| ==> r[k] == StepOf(steps[k])
  {
    seq(|steps|, k requires 0 <= k < |steps| reads Buffers(steps) => StepOf(steps[k]))
  }

  /** The buffers are exclusive borrows. */
  ghost predicate Exclusive(steps: seq<StepRef>) {
    forall i, j :: 0 <= i < j < |steps| ==> steps[i].buf != steps[j].buf
  }

  class InterruptContext {
    var currentTransaction: Option<TransactionRef>
    var state: PeripheralState
    /** The peripheral: everything that was requested from it since it was last reset. */
    var ops: seq<Op>

    constructor ()
      ensures Look() == Context(None, Done(0), [])
    {
      currentTransaction, state, ops := None, Done(0), [];
    }

    function Lent(): set<array<Byte>>
      reads this
    {
      if currentTransaction.None? then {} else Buffers(currentTransaction.value.steps)
    }

    ghost function Look(): Context
      reads this, Lent()
    {
      Context(match currentTransaction
              case None => None
              case Some(t) => Some(Transaction(StepsOf(t.steps), t.currStep, t.deviceAddr)), state, ops)
    }

    ghost predicate Valid()
      reads this, Lent()
    {
      I2c.Valid(Look()) && (currentTransaction.Some? ==> Exclusive(currentTransaction.value.steps))
    }

    method SendStart()
      modifies this`ops
      ensures ops == old(ops) + [Start]
    {
      ops := ops + [Start];
    }

    method SendStop()
      modifies this`ops
      ensures ops == old(ops) + [Stop]
    {
      ops := ops + [Stop];
    }

    method SendData(b: Byte)
      modifies this`ops
      ensures ops == old(ops) + [Send(b)]
    {
      ops := ops + [Send(b)];
    }

    /** Reading the data register, which holds `b`. */
    method ReadData(b: Byte) returns (byte: Byte)
      modifies this`ops
      ensures byte == b && ops == old(ops) + [Recv(b)]
    {
      ops := ops + [Recv(b)];
      byte := b;
    }

    /** The first critical section of run_transaction. A caller that finds the bus taken changes
        nothing. */
    method TryStart(deviceAddr: Byte, steps: seq<StepRef>) returns (ok: bool)
      requires Valid() && Exclusive(steps) && ValidSteps(StepsOf(steps))
      modifies this
      ensures ok == (old(currentTransaction).None? && old(state).Done?)
      ensures Valid()
      ensures Look() == if ok then Begin(deviceAddr, old(StepsOf(steps))) else old(Look())
      ensures ok ==> currentTransaction == Some(TransactionRef(steps, 0, deviceAddr))
    {
      if currentTransaction.Some? || !state.Done? {
        return false;
      }
      ops := [];
      currentTransaction := Some(TransactionRef(steps, 0, deviceAddr));
      state := StartBitSet;
      SendStart();
      assert StepsOf(steps) == old(StepsOf(steps));
      return true;
    }

    /** One round of the polling loop: Some(ok) when the call returns. A failed transaction resets
        the peripheral. */
    method Poll() returns (r: Option<bool>)
      requires Valid()
      modifies this
      ensures Valid()
      ensures r == if old(state).Done? then Some(old(state).ret == 0) else None
      ensures r.None? ==> Look() == old(Look())
      ensures r.Some? ==> Look() == Context(None, old(state), if r.value then old(ops) else [])
    {
      match state {
        case Done(ret) =>
          currentTransaction := None;
          if ret == 0 {
            return Some(true);
          }
          ops := [];
          return Some(false);
        case _ =>
          return None;
      }
    }

    /** rust_i2c_interrupt_error_handler */
    method HandleError()
      requires Valid()
      modifies this`state
      ensures Valid() && Look() == OnError(old(Look())) && currentTransaction == old(currentTransaction)
    {
      state := Done(-1);
      if currentTransaction.Some? {
        assert StepsOf(currentTransaction.value.steps) == old(StepsOf(currentTransaction.value.steps));
      }
    }

    /** rust_i2c_interrupt_handler */
    method HandleEvent(f: Flags, b0: Byte, b1: Byte)
      requires Valid()
      modifies this, Lent()
      ensures Valid() && Lent() == old(Lent())
      ensures Look() == OnEvent(old(Look()), f, b0, b1)
    {
      if currentTransaction.None? {
        return;
      }
      OnEventKeepsValid(Look(), f, b0, b1);
      var t := currentTransaction.value;
      var step := t.steps[t.currStep];
      match state {
        case StartBitSet =>
          if f.sb {
            SendData((t.deviceAddr << 1) | (if step.isRead then 1 else 0));
            state := AddressSent;
          }
        case AddressSent =>
          if f.addr {
            if step.isRead {
              state := Receiving(0);
            } else {
              SendData(step.buf[0]);
              state := Transmitting(1);
            }
          }
        case Transmitting(next) =>
          HandleTransmitting(f, next);
        case Receiving(next) =>
          HandleReceiving(f, b0, b1, next);
        case Done(_) =>
      }
    }

    method HandleTransmitting(f: Flags, next: nat)
      requires Valid() && currentTransaction.Some? && state == Transmitting(next)
      modifies this
      ensures Valid() && Lent() == old(Lent()) && Look() == OnEvent(old(Look()), f, 0, 0)
    {
      OnEventKeepsValid(Look(), f, 0, 0);
      var t := currentTransaction.value;
      var step := t.steps[t.currStep];
      if (next >= step.buf.Length && !f.btf) || !f.txe {
        return;
      }
      if next >= step.buf.Length {
        EndCurrentStep();
      } else {
        SendData(step.buf[next]);
        state := Transmitting(next + 1);
      }
    }

    /** STOP after the last step, START before the next one. */
    method EndCurrentStep()
      requires currentTransaction.Some?
      modifies this
      ensures Lent() == old(Lent()) && currentTransaction.Some?
      ensures currentTransaction.value.steps == old(currentTransaction.value.steps)
      ensures Look() == EndStep(old(Look()), old(Look()).trans.value)
    {
      var t := currentTransaction.value;
      if t.currStep + 1 >= |t.steps| {
        SendStop();
        state := Done(0);
      } else {
        SendStart();
        currentTransaction := Some(t.(currStep := t.currStep + 1));
        state := StartBitSet;
      }
    }

    method HandleReceiving(f: Flags, b0: Byte, b1: Byte, next: nat)
      requires Valid() && currentTransaction.Some? && state == Receiving(next)
      modifies this, Lent()
      ensures Valid() && Lent() == old(Lent()) && Look() == OnEvent(old(Look()), f, b0, b1)
    {
      OnEventKeepsValid(Look(), f, b0, b1);
      var t := currentTransaction.value;
      var step := t.steps[t.currStep];
      if next == step.buf.Length - 1 {
        if !f.rxne {
          return;
        }
        Store(next, b0);
        EndCurrentStep();
      } else if next == step.buf.Length - 2 {
        if !f.btf {
          return;
        }
        ReceiveTwo(b0, b1, next);
      } else {
        if !f.rxne {
          return;
        }
        Store(next, b0);
        state := Receiving(next + 1);
      }
    }

    /** The last two bytes of a step; on the last step the STOP is requested first. */
    method ReceiveTwo(b0: Byte, b1: Byte, next: nat)
      requires Valid() && currentTransaction.Some?
      requires next + 2 == |Look().trans.value.steps[Look().trans.value.curr].data|
      modifies this, Lent()
      ensures Lent() == old(Lent()) && currentTransaction.Some?
      ensures currentTransaction.value.steps == old(currentTransaction.value.steps)
      ensures var c := old(Look());
              var t := c.trans.value.SetByte(next, b0).SetByte(next + 1, b1);
              Look() == if c.trans.value.OnLastStep()
                        then Context(Some(t), Done(0), c.ops + [Stop, Recv(b0), Recv(b1)])
                        else EndStep(c.(ops := c.ops + [Recv(b0), Recv(b1)]), t)
    {
      var last := currentTransaction.value.currStep + 1 >= |currentTransaction.value.steps|;
      ghost var ops0, t := ops, Look().trans.value.SetByte(next, b0).SetByte(next + 1, b1);
      if last {
        SendStop();
      }
      StoreTwo(b0, b1, next);
      if last {
        state := Done(0);
        assert ops == ops0 + [Stop, Recv(b0), Recv(b1)];
      } else {
        EndCurrentStep();
      }
    }

    method StoreTwo(b0: Byte, b1: Byte, next: nat)
      requires Valid() && currentTransaction.Some?
      requires next + 2 == |Look().trans.value.steps[Look().trans.value.curr].data|
      modifies this`ops, Lent()
      ensures Look() == Context(Some(old(Look()).trans.value.SetByte(next, b0).SetByte(next + 1, b1)), old(state),
                                old(ops) + [Recv(b0), Recv(b1)])
    {
      ghost var ops0 := ops;
      Store(next, b0);
      Store(next + 1, b1);
      assert ops == ops0 + [Recv(b0), Recv(b1)];
    }

    /** steps[curr_step].as_mut()[pos] = read_data() */
    method Store(pos: nat, b: Byte)
      requires currentTransaction.Some? && Exclusive(currentTransaction.value.steps)
      requires currentTransaction.value.currStep < |currentTransaction.value.steps|
      requires pos < currentTransaction.value.steps[currentTransaction.value.currStep].buf.Length
      modifies this`ops, Lent()
      ensures Look() == old(Look()).(trans := Some(old(Look()).trans.value.SetByte(pos, b)),
                                     ops := old(ops) + [Recv(b)])
    {
      var t := currentTransaction.value;
      ghost var before := StepsOf(t.steps);
      var byte := ReadData(b);
      t.steps[t.currStep].buf[pos] := byte;
      assert StepsOf(t.steps)
          == before[t.currStep := before[t.currStep].(data := before[t.currStep].data[pos := b])];
    }
  }
}
