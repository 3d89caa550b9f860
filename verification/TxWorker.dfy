/** The transmitting task (src/message_dispatcher.c, check_outgoing_queue,
    process_outgoing_message and process_outgoing_err_message). */
module TxWorker {

  import opened Options
  import opened Pools
  import opened Dispatcher
  import opened Framing
  import CText
  import Checksum

  // --------------------------------------------------------- specification

  /** What the transmit side works on. The line is kept apart. */
  datatype TxState = TxState(views: seq<View>, errors: seq<int>)

  ghost predicate ValidState(st: TxState) {
    forall i :: 0 <= i < |st.views| ==> ValidView(st.views[i])
  }

  datatype Rendered = Failed(code: int) | Body(text: string)

  function Prefix(conf: Conf, hdr: Header): string
    requires hdr.msgType < |conf.handlers|
  {
    CText.Decimal(hdr.transactionId) + "," + conf.name + "," + conf.handlers[hdr.msgType].name
  }

  /** The body of a message, or the error that is reported instead. */
  function Render(N: nat, conf: Conf, hdr: Header): Rendered {
    if hdr.msgType >= |conf.handlers| || conf.handlers[hdr.msgType].serialize.None?
    then Failed(MISSING_MESSAGE_HANDLER_ERROR)
    else
      var prefix := Prefix(conf, hdr);
      if 1 + |prefix| >= N then Failed(MESSAGE_TOO_LONG_ERROR)
      else
        match conf.handlers[hdr.msgType].serialize.value(hdr.payload, N - 1 - |prefix|)
        case None => Failed(MESSAGE_FORMATTING_ERROR)
        case Some(payload) =>
          if payload == [] then Failed(MESSAGE_FORMATTING_ERROR)
          else if |Frame(prefix + payload)| >= N then Failed(MESSAGE_TOO_LONG_ERROR)
          else Body(prefix + payload)
  }

  function ErrorBody(name: string, code: int): string {
    name + ",ERROR," + CText.SignedDecimal(code)
  }

  /** An error report that does not fit is dropped without a trace. */
  function ErrorPieces(N: nat, name: string, code: int): seq<Piece> {
    var body := ErrorBody(name, code);
    if |Frame(body)| < N then [Whole(body)] else []
  }

  function FirstError(views: seq<View>): (i: nat)
    ensures i <= |views|
    ensures i < |views| ==> views[i].errors.Some? && views[i].errors.value != []
    ensures forall k :: 0 <= k < i ==> views[k].errors.None? || views[k].errors.value == []
  {
    if views == [] || (views[0].errors.Some? && views[0].errors.value != []) then 0
    else 1 + FirstError(views[1..])
  }

  function FirstMessage(views: seq<View>): (i: nat)
    ensures i <= |views|
    ensures i < |views| ==> views[i].outgoing.Some? && views[i].outgoing.value != []
    ensures forall k :: 0 <= k < i ==> views[k].outgoing.None? || views[k].outgoing.value == []
  {
    if views == [] || (views[0].outgoing.Some? && views[0].outgoing.value != []) then 0
    else 1 + FirstMessage(views[1..])
  }

  /** Sending the first message of a subsystem; `room` is the free space of the character buffer. */
  ghost function Sent(N: nat, v: View, errors: seq<int>, room: nat): (View, seq<int>, seq<Piece>)
    requires ValidView(v) && v.outgoing.Some? && v.outgoing.value != []
  {
    var h := v.outgoing.value[0];
    var hdr := v.pool.heap[h];
    var v' := v.(outgoing := Some(v.outgoing.value[1..]),
                 pool := v.pool.FreeAt(h, v.conf.slotClasses[hdr.msgType]));
    match Render(N, v.conf, hdr)
    case Failed(code) => (v', Scheduled(errors, code), [])
    case Body(b) =>
      if room < |Frame(b)| then (v', Scheduled(errors, TX_BUFFER_FULL), [Cut(b, room)])
      else (v', errors, [Whole(b)])
  }

  /** Sending the first error report of subsystem i. */
  ghost function ErrorSent(N: nat, st: TxState, i: nat): (TxState, seq<Piece>)
    requires i < |st.views| && st.views[i].errors.Some? && st.views[i].errors.value != []
  {
    var v := st.views[i];
    (st.(views := st.views[i := v.(errors := Some(v.errors.value[1..]))]),
     ErrorPieces(N, v.conf.name, v.errors.value[0]))
  }

  /** Sending the first message of subsystem i. */
  ghost function MessageSent(N: nat, st: TxState, i: nat, room: nat): (TxState, seq<Piece>)
    requires i < |st.views| && ValidView(st.views[i])
    requires st.views[i].outgoing.Some? && st.views[i].outgoing.value != []
  {
    var (v, errors, pieces) := Sent(N, st.views[i], st.errors, room);
    (TxState(st.views[i := v], errors), pieces)
  }

  /** One action of the transmitting task: its own errors first, then those of the subsystems,
      then the messages. */
  ghost function TxNext(N: nat, st: TxState, room: nat): (TxState, seq<Piece>)
    requires ValidState(st)
  {
    var i, j := FirstError(st.views), FirstMessage(st.views);
    if st.errors != [] then (st.(errors := st.errors[1..]), ErrorPieces(N, "DISPATCHER", st.errors[0]))
    else if i < |st.views| then ErrorSent(N, st, i)
    else if j < |st.views| then MessageSent(N, st, j, room)
    else (st, [])
  }

  // --------------------------------------------------------- implementation

  /** Appending to a buffer that starts with `done`, and advancing the position. */
  method Append(buf: array<char>, pos: nat, ghost done: string, text: string) returns (pos': nat)
    requires pos < buf.Length && buf[..pos] == done
    modifies buf
    ensures pos' == pos + |text|
    ensures pos' < buf.Length ==> buf[..pos'] == done + text
  {
    var n := CText.Snprintf(buf, pos, buf.Length - pos, text);
    pos' := pos + n;
    assert buf[..pos] == done;
    if pos' < buf.Length {
      assert buf[..pos'] == buf[..pos] + buf[pos..pos'];
    }
  }

  /** The checksum and the trailer. */
  method Seal(buf: array<char>, pos: nat, ghost body: string) returns (pos': nat)
    requires 1 <= pos < buf.Length && buf[..pos] == "$" + body
    modifies buf
    ensures pos' == |Frame(body)|
    ensures pos' < buf.Length ==> buf[..pos'] == Frame(body)
  {
    var csum := Checksum.Calc(buf, 1, pos - 1);
    assert buf[1..1 + (pos - 1)] == buf[..pos][1..] == body;
    pos' := Append(buf, pos, "$" + body, "*" + Checksum.Hex2(csum) + "\r\n");
  }

  class TxWorker {
    const N: nat
    const registry: Registry
    const errors: ErrorQueue
    /** Everything that was ever written to the character buffer of the UART. */
    var line: string

    constructor (N: nat, registry: Registry, errors: ErrorQueue)
      ensures this.N == N && this.registry == registry && this.errors == errors && line == []
    {
      this.N, this.registry, this.errors, this.line := N, registry, errors, [];
    }

    ghost function State(): TxState
      reads this, registry, registry.subsystems, errors
    {
      TxState(registry.Views(), errors.items)
    }

    /** check_outgoing_queue */
    method Check(room: nat)
      requires N >= 2 && registry.Valid()
      modifies this, errors, registry.subsystems
      ensures registry.Valid() && ValidState(old(State()))
      ensures State() == TxNext(N, old(State()), room).0
      ensures line == old(line) + Line(TxNext(N, old(State()), room).1)
    {
      ghost var st := State();
      if errors.items != [] {
        CheckOwnError(st);
        return;
      }
      var i := FindError();
      if i < |registry.subsystems| {
        CheckError(i, st);
        return;
      }
      var j := FindMessage();
      if j < |registry.subsystems| {
        CheckMessage(j, room, st);
      }
    }

    /** The loop over the subsystems' error queues. */
    method FindError() returns (i: nat)
      ensures i == FirstError(registry.Views())
    {
      i := 0;
      while i < |registry.subsystems|
            && (registry.subsystems[i].errors.None? || registry.subsystems[i].errors.value == [])
        invariant i <= |registry.subsystems|
        invariant var views := registry.Views();
                  forall k :: 0 <= k < i ==> views[k].errors.None? || views[k].errors.value == []
      {
        i := i + 1;
      }
    }

    /** The loop over the subsystems' message queues. */
    method FindMessage() returns (i: nat)
      ensures i == FirstMessage(registry.Views())
    {
      i := 0;
      while i < |registry.subsystems|
            && (registry.subsystems[i].outgoing.None? || registry.subsystems[i].outgoing.value == [])
        invariant i <= |registry.subsystems|
        invariant var views := registry.Views();
                  forall k :: 0 <= k < i ==> views[k].outgoing.None? || views[k].outgoing.value == []
      {
        i := i + 1;
      }
    }

    method CheckOwnError(ghost st: TxState)
      requires N >= 2 && registry.Valid() && st == State() && st.errors != []
      modifies this, errors
      ensures registry.Valid() && State() == st.(errors := st.errors[1..])
      ensures line == old(line) + Line(ErrorPieces(N, "DISPATCHER", st.errors[0]))
    {
      var code := errors.items[0];
      errors.items := errors.items[1..];
      SendError("DISPATCHER", code);
    }

    method CheckError(i: nat, ghost st: TxState)
      requires N >= 2 && registry.Valid() && st == State() && i < |registry.subsystems|
      requires registry.subsystems[i].errors.Some? && registry.subsystems[i].errors.value != []
      modifies this, registry.subsystems
      ensures registry.Valid()
      ensures State() == ErrorSent(N, st, i).0 && line == old(line) + Line(ErrorSent(N, st, i).1)
    {
      var conf := registry.subsystems[i];
      var code := conf.errors.value[0];
      conf.errors := Some(conf.errors.value[1..]);
      assert registry.Views() == st.views[i := conf.Look()];
      SendError(conf.conf.name, code);
    }

    method CheckMessage(i: nat, room: nat, ghost st: TxState)
      requires N >= 2 && registry.Valid() && st == State() && i < |registry.subsystems|
      requires registry.subsystems[i].outgoing.Some? && registry.subsystems[i].outgoing.value != []
      modifies this, errors, registry.subsystems
      ensures registry.Valid()
      ensures State() == MessageSent(N, st, i, room).0 && line == old(line) + Line(MessageSent(N, st, i, room).1)
    {
      var conf := registry.subsystems[i];
      SentIsValid(N, conf.Look(), errors.items, room);
      SendMessage(conf, room);
      assert registry.Views() == st.views[i := conf.Look()];
    }

    /** process_outgoing_err_message; the write blocks until everything is written. */
    method SendError(name: string, code: int)
      requires N >= 2
      modifies this
      ensures line == old(line) + Line(ErrorPieces(N, name, code))
    {
      var buf := new char[N];
      buf[0] := '$';
      ghost var body := ErrorBody(name, code);
      var pos := Append(buf, 1, "$", ErrorBody(name, code));
      if pos >= N {
        return;
      }
      pos := Seal(buf, pos, body);
      if pos >= N {
        return;
      }
      LineOfOne(Whole(body));
      line := line + buf[..pos];
    }

    /** Reading the first message of the queue, and process_outgoing_message. */
    method SendMessage(conf: Subsystem, room: nat)
      requires N >= 2 && ValidView(conf.Look()) && conf.outgoing.Some? && conf.outgoing.value != []
      modifies this, errors, conf
      ensures var (v, errs, pieces) := Sent(N, old(conf.Look()), old(errors.items), room);
              conf.Look() == v && errors.items == errs && line == old(line) + Line(pieces)
    {
      var msg := conf.outgoing.value[0];
      conf.outgoing := Some(conf.outgoing.value[1..]);
      var rendered, frame := BuildFrame(conf.conf, conf.pool.heap[msg]);
      match rendered {
        case Failed(code) =>
          errors.Schedule(code);
        case Body(b) =>
          if room < |frame| {
            LineOfOne(Cut(b, room));
            line := line + frame[..room];
            errors.Schedule(TX_BUFFER_FULL);
          } else {
            LineOfOne(Whole(b));
            line := line + frame;
          }
      }
      conf.FreeMessage(msg);
    }

    /** The formatting part of process_outgoing_message, in a buffer of N characters. */
    method BuildFrame(conf: Conf, hdr: Header) returns (rendered: Rendered, frame: string)
      requires N >= 2
      ensures rendered == Render(N, conf, hdr)
      ensures rendered.Body? ==> frame == Frame(rendered.text) && |frame| < N
    {
      frame := [];
      if hdr.msgType >= |conf.handlers| || conf.handlers[hdr.msgType].serialize.None? {
        return Failed(MISSING_MESSAGE_HANDLER_ERROR), [];
      }
      var buf := new char[N];
      buf[0] := '$';
      var prefix := Prefix(conf, hdr);
      var pos := Append(buf, 1, "$", prefix);
      if pos >= N {
        return Failed(MESSAGE_TOO_LONG_ERROR), [];
      }
      var payload := conf.handlers[hdr.msgType].serialize.value(hdr.payload, N - pos);
      if payload == None || payload.value == [] {
        return Failed(MESSAGE_FORMATTING_ERROR), [];
      }
      pos := Append(buf, pos, "$" + prefix, payload.value);
      if pos >= N {
        return Failed(MESSAGE_TOO_LONG_ERROR), [];
      }
      var body := prefix + payload.value;
      assert "$" + prefix + payload.value == "$" + body;
      pos := Seal(buf, pos, body);
      if pos >= N {
        return Failed(MESSAGE_TOO_LONG_ERROR), [];
      }
      return Body(body), buf[..pos];
    }
  }

  lemma SentIsValid(N: nat, v: View, errors: seq<int>, room: nat)
    requires ValidView(v) && v.outgoing.Some? && v.outgoing.value != []
    ensures ValidView(Sent(N, v, errors, room).0)
  {
  }

  lemma LineOfOne(p: Piece)
    ensures Line([p]) == Text(p)
  {
    assert [p][1..] == [];
    assert Text(p) + [] == Text(p);
  }
}
