/** The receiving task (src/message_dispatcher.c, assemble_incoming_message and
    process_incoming_message): a fixed buffer filled one character per call, tokenised in place. */
module RxWorker {

  import opened Options
  import opened Pools
  import opened Dispatcher
  import CText
  import Checksum
  import Receiver

  /** The C string at `at`, which ends at `end`. */
  method ReadCStr(buf: array<char>, at: nat, ghost end: nat) returns (s: string)
    requires CText.EndsAt(buf[..], at, end)
    ensures s == buf[at..end]
  {
    var i := at;
    while buf[i] != CText.NUL
      invariant at <= i <= end
      decreases end - i
    {
      i := i + 1;
    }
    return buf[at..i];
  }

  /** strtok_r followed by reading the token it returned. */
  method NextToken(buf: array<char>, save: nat, ghost z: nat)
    returns (token: Option<string>, save': nat)
    requires CText.EndsAt(buf[..], save, z)
    modifies buf
    ensures save <= save' && CText.EndsAt(buf[..], save', z)
    ensures match CText.NextToken(old(buf[save..z]))
            case None => token == None
            case Some(t) => token == Some(t.text) && buf[save'..z] == t.rest
  {
    ghost var a := buf[..];
    ghost var s := a[save..z];
    ghost var end: nat;
    var tok: int;
    tok, save', end := CText.StrtokR(buf, save, z);
    CText.StrtokDelivers(a, save, z, tok, end, save', s);
    if tok == -1 {
      token := None;
    } else {
      AfterStrtok(a, save, z, tok, end, save', buf[..]);
      var text := ReadCStr(buf, tok, end);
      token := Some(text);
    }
    assert s == old(buf[save..z]);
  }

  lemma AfterStrtok(a: string, save: nat, z: nat, tok: nat, end: nat, save': nat, b: string)
    requires CText.EndsAt(a, save, z) && CText.StrtokEffect(a, save, z, tok, end, save')
    requires b == a[end := CText.NUL]
    ensures CText.EndsAt(b, tok, end) && CText.EndsAt(b, save', z)
    ensures b[tok..end] == a[tok..end] && b[save'..z] == a[save'..z]
  {
  }

  /** The tokenising part of process_incoming_message. A body without any token makes the
      original hand a NULL pointer to strtoul. */
  method ReadRequest(buf: array<char>, ghost z: nat, ghost body: string) returns (r: Request)
    requires CText.EndsAt(buf[..], 0, z) && body == buf[0..z] && HasToken(body)
    modifies buf
    ensures r == ParseRequest(body)
  {
    var token, save := NextToken(buf, 0, z);
    var id := token.value;
    var n := CText.Strtoul(id, 10);
    if n.outOfRange || n.end == 0 || n.end != |id| {
      return Malformed;
    }
    var subsystem, message;
    subsystem, save := NextToken(buf, save, z);
    message, save := NextToken(buf, save, z);
    if subsystem == None || message == None {
      return Malformed;
    }
    var rest := ReadCStr(buf, save, z);
    return Request(n.value, subsystem.value, message.value, rest);
  }

  class RxWorker {
    const N: nat
    const buf: array<char>
    var pos: nat
    var msgIsIncoming: bool
    const registry: Registry
    const errors: ErrorQueue

    constructor (N: nat, registry: Registry, errors: ErrorQueue)
      requires N > 0
      ensures Valid() && State() == Receiver.Idle
      ensures this.N == N && this.registry == registry && this.errors == errors && fresh(buf)
    {
      this.N, this.registry, this.errors := N, registry, errors;
      buf := new char[N];
      pos, msgIsIncoming := 0, false;
    }

    ghost predicate Valid()
      reads this
    {
      N > 0 && buf.Length == N && pos < N
    }

    function State(): Receiver.State
      requires pos <= buf.Length
      reads this, buf
    {
      if msgIsIncoming then Receiver.Collecting(buf[..pos]) else Receiver.Idle
    }

    /** assemble_incoming_message for one character. The outcome is the step of the receiving
        machine, and its event, if any, is handled: an error is scheduled, a body is processed. */
    method Assemble(ch: char)
      requires Valid() && registry.Valid()
      requires ch != '$' && msgIsIncoming ==> TokenIfComplete(buf[..pos] + [ch])
      modifies this`pos, this`msgIsIncoming, buf, errors, registry.subsystems
      ensures registry.Valid()
      ensures Valid()
      ensures Receiver.Step(N, old(State()), ch).0 == State()
      ensures var events := Receiver.Step(N, old(State()), ch).1;
              if events == [] then
                errors.items == old(errors.items) && registry.Views() == old(registry.Views())
              else
                |events| == 1 && Handled(events[0], old(registry.Views()), registry.Views(),
                                         old(errors.items), errors.items)
    {
      if ch == '$' {
        pos, msgIsIncoming := 0, true;
        return;
      }
      if !msgIsIncoming {
        return;
      }
      ghost var held := buf[..pos] + [ch];
      Append(ch, held, if Receiver.EndsAt(held, |held|) then Receiver.Judge(held) else Receiver.TooLong);
    }

    /** A character inside a frame. `event` is what comes of the frame if it ends here. */
    method Append(ch: char, ghost held: string, ghost event: Receiver.Event)
      requires Valid() && registry.Valid() && msgIsIncoming && held == buf[..pos] + [ch]
      requires Receiver.EndsAt(held, |held|) ==> event == Receiver.Judge(held)
      requires event.Dispatch? ==> HasToken(CText.CStr(event.body))
      modifies this`pos, this`msgIsIncoming, buf, errors, registry.subsystems
      ensures registry.Valid() && Valid()
      ensures if Receiver.EndsAt(held, |held|) || |held| >= N then !msgIsIncoming
              else msgIsIncoming && buf[..pos] == held
      ensures if Receiver.EndsAt(held, |held|) then
                Handled(event, old(registry.Views()), registry.Views(), old(errors.items), errors.items)
              else
                && registry.Views() == old(registry.Views())
                && errors.items == if |held| >= N then Scheduled(old(errors.items), MESSAGE_TOO_LONG_ERROR)
                                   else old(errors.items)
    {
      ghost var views, errs := registry.Views(), errors.items;
      buf[pos] := ch;
      pos := pos + 1;
      assert buf[..pos] == held;
      if pos >= 10 && buf[pos - 2] == '\r' && buf[pos - 1] == '\n' {
        var len := pos;
        pos, msgIsIncoming := 0, false;
        Complete(held, len, event, views, errs);
      } else if pos >= N {
        errors.Schedule(MESSAGE_TOO_LONG_ERROR);
        pos, msgIsIncoming := 0, false;
      }
    }

    /** A complete frame: checksum validation, then message processing. `event` is what the
        receiving machine makes of the frame. */
    method Complete(ghost held: string, len: nat, ghost event: Receiver.Event,
                    ghost views: seq<View>, ghost errs: seq<int>)
      requires 10 <= len == |held| <= buf.Length && buf[..len] == held
      requires event == Receiver.Judge(held)
      requires registry.Valid() && registry.Views() == views && errors.items == errs
      requires event.Dispatch? ==> HasToken(CText.CStr(event.body))
      modifies buf, errors, registry.subsystems
      ensures registry.Valid()
      ensures Handled(event, views, registry.Views(), errs, errors.items)
    {
      var valid := Validate(held, len, event);
      if valid {
        Process(event.body, views, errs);
      } else {
        errors.Schedule(RX_CHECKSUM_ERROR);
      }
    }

    /** The checksum test; it cuts the body off with a NUL when it passes. */
    method Validate(ghost held: string, len: nat, ghost event: Receiver.Event) returns (valid: bool)
      requires 10 <= len == |held| <= buf.Length && buf[..len] == held
      requires event == Receiver.Judge(held)
      modifies buf
      ensures if valid then event.Dispatch? else event.ChecksumError?
      ensures valid ==>
                var n := |event.body|;
                n < buf.Length && buf[..n] == event.body && buf[n] == CText.NUL
    {
      if buf[len - 5] != '*' {
        return false;
      }
      buf[len - 2] := CText.NUL;
      assert buf[..len] == held[len - 2 := CText.NUL];
      var field := ReadField(held, len);
      var msgCsum := CText.Strtoul(field, 16);
      var csum := Checksum.Calc(buf, 0, len - 5);
      assert buf[0..0 + (len - 5)] == held[..len - 5];
      if msgCsum.end != 2 || msgCsum.value != csum as int {
        return false;
      }
      buf[len - 5] := CText.NUL;
      return true;
    }

    /** The C string that strtoul gets to see: the two checksum characters, up to a NUL. */
    method ReadField(ghost held: string, len: nat) returns (field: string)
      requires 10 <= len == |held| <= buf.Length && buf[..len] == held[len - 2 := CText.NUL]
      ensures field == CText.CStr(held[len - 4..len - 2])
    {
      ghost var end := len - 4 + |CText.CStr(held[len - 4..len - 2])|;
      field := ReadCStr(buf, len - 4, end);
    }

    /** process_incoming_message, on the body that the buffer starts with. */
    method Process(ghost body: string, ghost views: seq<View>, ghost errs: seq<int>)
      requires |body| < buf.Length && buf[..|body|] == body && buf[|body|] == CText.NUL
      requires HasToken(CText.CStr(body))
      requires registry.Valid() && registry.Views() == views && errors.items == errs
      modifies buf, errors, registry.subsystems
      ensures registry.Valid()
      ensures Processed(ParseRequest(CText.CStr(body)), views, registry.Views(), errs, errors.items)
    {
      ghost var text := CText.CStr(body);
      BodyInBuffer(buf[..], body, text);
      var r := ReadRequest(buf, |text|, text);
      Respond(r, views, errs);
    }

    /** The part of process_incoming_message behind the tokenising. */
    method Respond(r: Request, ghost views: seq<View>, ghost errs: seq<int>)
      requires registry.Valid() && registry.Views() == views && errors.items == errs
      modifies errors, registry.subsystems
      ensures registry.Valid()
      ensures Processed(r, views, registry.Views(), errs, errors.items)
    {
      if r == Malformed {
        errors.Schedule(MESSAGE_PARSING_ERROR);
        NothingTouched(views, registry.Views());
      } else {
        Route(r);
      }
    }

    /** The subsystem loop. */
    method Route(r: Request)
      requires r.Request? && registry.Valid()
      modifies errors, registry.subsystems
      ensures registry.Valid()
      ensures Processed(r, old(registry.Views()), registry.Views(), old(errors.items), errors.items)
    {
      ghost var views := registry.Views();
      for i := 0 to |registry.subsystems|
        invariant registry.Views() == views && errors.items == old(errors.items)
        invariant forall k :: 0 <= k < i ==> Names(views)[k] != r.subsystem
      {
        var conf := registry.subsystems[i];
        if r.subsystem == conf.conf.name {
          FindFirstIs(Names(views), r.subsystem, i);
          Deliver(conf, i, r);
          OnlyOneTouched(r, i, views, registry.Views(), old(errors.items), errors.items);
          return;
        }
      }
      FindFirstIs(Names(views), r.subsystem, |views|);
      errors.Schedule(UNKNOWN_SUBSYSTEM_ERROR);
      NothingTouched(views, registry.Views());
    }

    /** The handler loop of the addressed subsystem. */
    method Deliver(conf: Subsystem, ghost i: nat, r: Request)
      requires r.Request? && ValidView(conf.Look())
      modifies errors, conf
      ensures ValidView(conf.Look())
      ensures DeliveredTo(DecideFor(old(conf.Look()), i, r), old(conf.Look()), conf.Look(),
                          old(errors.items), errors.items)
    {
      ghost var v := conf.Look();
      var t := 0;
      while t < |conf.conf.handlers| && conf.conf.handlers[t].name != r.message
        invariant t <= |conf.conf.handlers|
        invariant forall k :: 0 <= k < t ==> HandlerNames(v.conf)[k] != r.message
      {
        t := t + 1;
      }
      FindFirstIs(HandlerNames(v.conf), r.message, t);
      if t == |conf.conf.handlers| {
        errors.Schedule(UNKNOWN_MESSAGE_TYPE_ERROR);
      } else {
        Construct(conf, i, t, r);
      }
    }

    /** Allocating, filling and queueing a message of type `t`. */
    method Construct(conf: Subsystem, ghost i: nat, t: nat, r: Request)
      requires r.Request? && ValidView(conf.Look()) && t < |conf.conf.handlers|
      modifies errors, conf
      ensures ValidView(conf.Look())
      ensures DeliveredTo(DecideWith(old(conf.Look()), i, t, r), old(conf.Look()), conf.Look(),
                          old(errors.items), errors.items)
    {
      if conf.conf.handlers[t].parse.None? {
        errors.Schedule(MISSING_MESSAGE_HANDLER_ERROR);
        return;
      }
      var msg, s := conf.AllocMessage(t);
      if msg.None? {
        errors.Schedule(MEM_ALLOC_ERROR);
        return;
      }
      var h := msg.value;
      conf.pool := conf.pool.(heap := conf.pool.heap[h := conf.pool.heap[h].(transactionId := r.id)]);
      var parsed := conf.conf.handlers[t].parse.value(r.rest);
      if parsed.None? {
        errors.Schedule(MESSAGE_PARSING_ERROR);
        conf.FreeMessage(h);
        return;
      }
      conf.pool := conf.pool.(heap := conf.pool.heap[h := conf.pool.heap[h].(payload := parsed.value)]);
      Queue(conf, h);
    }

    /** Handing a message to its subsystem. */
    method Queue(conf: Subsystem, h: nat)
      requires h in conf.pool.heap && conf.pool.heap[h].msgType < |conf.conf.slotClasses|
      modifies errors, conf`pool, conf`incoming
      ensures if |old(conf.incoming)| < conf.conf.incomingCapacity then
                && conf.incoming == old(conf.incoming) + [h]
                && conf.pool == old(conf.pool) && errors.items == old(errors.items)
              else
                && conf.incoming == old(conf.incoming)
                && conf.pool == old(conf.pool).FreeAt(h, conf.conf.slotClasses[old(conf.pool).heap[h].msgType])
                && errors.items == Scheduled(old(errors.items), MESSAGE_ROUTING_ERROR)
    {
      if |conf.incoming| < conf.conf.incomingCapacity {
        conf.incoming := conf.incoming + [h];
      } else {
        errors.Schedule(MESSAGE_ROUTING_ERROR);
        conf.FreeMessage(h);
      }
    }
  }

  /** A frame that passes the checksum holds a token (see HasToken). */
  ghost predicate TokenIfComplete(held: string) {
    Receiver.EndsAt(held, |held|) && Receiver.Judge(held).Dispatch?
    ==> HasToken(CText.CStr(Receiver.Judge(held).body))
  }

  /** The outcome of a request. */
  ghost predicate Processed(r: Request, before: seq<View>, after: seq<View>, errors: seq<int>, errors': seq<int>) {
    && (forall i :: 0 <= i < |before| ==> ValidView(before[i]))
    && Outcome(Decide(before, r), before, after, errors, errors')
  }

  /** The same for the addressed subsystem alone. */
  ghost predicate DeliveredTo(v: Verdict, before: View, after: View, errors: seq<int>, errors': seq<int>) {
    match v
    case Refuse(code) => errors' == Scheduled(errors, code) && Untouched(before, after)
    case Enqueue(_, t, id, payload) =>
      && errors' == errors
      && ValidView(before) && t < |before.conf.slotClasses| && Enqueued(before, after, t, id, payload)
  }

  lemma NothingTouched(before: seq<View>, after: seq<View>)
    requires after == before
    ensures forall i :: 0 <= i < |before| ==> Untouched(before[i], after[i])
  {
  }

  /** The outcome for the addressed subsystem is the outcome for all of them. */
  lemma OnlyOneTouched(r: Request, i: nat, before: seq<View>, after: seq<View>, errors: seq<int>, errors': seq<int>)
    requires r.Request? && i < |before| == |after|
    requires FindFirst(Names(before), r.subsystem) == i
    requires forall k :: 0 <= k < |before| ==> ValidView(before[k])
    requires forall k :: 0 <= k < |before| && k != i ==> after[k] == before[k]
    requires DeliveredTo(DecideFor(before[i], i, r), before[i], after[i], errors, errors')
    ensures Processed(r, before, after, errors, errors')
  {
    NothingTouched(before, before);
  }

  /** How an event of the receiving machine is handled. */
  ghost predicate Handled(event: Receiver.Event, before: seq<View>, after: seq<View>,
                          errors: seq<int>, errors': seq<int>) {
    match event
    case ChecksumError => after == before && errors' == Scheduled(errors, RX_CHECKSUM_ERROR)
    case TooLong => after == before && errors' == Scheduled(errors, MESSAGE_TOO_LONG_ERROR)
    case Dispatch(body) =>
      HasToken(CText.CStr(body))
      && Processed(ParseRequest(CText.CStr(body)), before, after, errors, errors')
  }

  lemma BodyInBuffer(a: string, body: string, text: string)
    requires |body| < |a| && a[..|body|] == body && a[|body|] == CText.NUL && text == CText.CStr(body)
    ensures CText.EndsAt(a, 0, |text|) && a[0..|text|] == text
  {
  }
}
