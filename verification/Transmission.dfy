/** Whole runs of the transmitting task, and the way from a message of one board to the request
    that another board reads (src/message_dispatcher.c). */
module Transmission {

  import opened Options
  import opened Pools
  import opened Dispatcher
  import opened Framing
  import opened TxWorker
  import Receiver
  import CText

  // ------------------------------------------------------------------ runs

  lemma TxNextKeepsValid(N: nat, st: TxState, room: nat)
    requires ValidState(st)
    ensures ValidState(TxNext(N, st, room).0)
  {
    var j := FirstMessage(st.views);
    if j < |st.views| {
      SentIsValid(N, st.views[j], st.errors, room);
    }
  }

  /** A run of transmit actions with no new producers; `rooms` is the space that each action finds
      in the character buffer. */
  ghost function TxRun(N: nat, st: TxState, rooms: seq<nat>): (TxState, seq<Piece>)
    requires ValidState(st)
    decreases rooms
  {
    if rooms == [] then (st, [])
    else
      var (st1, p1) := TxNext(N, st, rooms[0]);
      TxNextKeepsValid(N, st, rooms[0]);
      var (st2, p2) := TxRun(N, st1, rooms[1..]);
      (st2, p1 + p2)
  }

  // ------------------------------------------------------ the queues drain

  function QueueLength<T>(q: Option<seq<T>>): nat {
    match q case None => 0 case Some(s) => |s|
  }

  /** Two for each message, one for each error report of the subsystems. */
  function ViewsLoad(views: seq<View>): nat {
    if views == [] then 0
    else ViewsLoad(views[..|views| - 1])
         + 2 * QueueLength(views[|views| - 1].outgoing) + QueueLength(views[|views| - 1].errors)
  }

  /** 2 * messages + errors */
  function Load(st: TxState): nat {
    ViewsLoad(st.views) + |st.errors|
  }

  lemma {:induction false} ViewsLoadOfUpdate(views: seq<View>, i: nat, v: View)
    requires i < |views|
    ensures ViewsLoad(views[i := v]) + 2 * QueueLength(views[i].outgoing) + QueueLength(views[i].errors)
            == ViewsLoad(views) + 2 * QueueLength(v.outgoing) + QueueLength(v.errors)
  {
    var n := |views| - 1;
    if i == n {
      assert views[i := v][..n] == views[..n];
    } else {
      assert views[i := v][..n] == views[..n][i := v];
      ViewsLoadOfUpdate(views[..n], i, v);
    }
  }

  lemma {:induction false} LoadIsZero(views: seq<View>)
    ensures ViewsLoad(views) == 0 <==>
            FirstError(views) == |views| && FirstMessage(views) == |views|
  {
    if views != [] {
      var n := |views| - 1;
      var init := views[..n];
      LoadIsZero(init);
      assert forall k :: 0 <= k < n ==> init[k] == views[k];
      assert views[n] == views[n];
    }
  }

  /** An action takes a message only when no error report waits anywhere, and it takes off the load
      whatever there is. The error that sending a message may raise always finds room. */
  lemma TxNextUnloads(N: nat, st: TxState, room: nat)
    requires ValidState(st)
    ensures Load(st) == 0 ==> TxNext(N, st, room) == (st, [])
    ensures Load(st) > 0 ==> Load(TxNext(N, st, room).0) < Load(st)
  {
    LoadIsZero(st.views);
    var i, j := FirstError(st.views), FirstMessage(st.views);
    if st.errors == [] {
      if i < |st.views| {
        var v := st.views[i];
        ViewsLoadOfUpdate(st.views, i, v.(errors := Some(v.errors.value[1..])));
      } else if j < |st.views| {
        ViewsLoadOfUpdate(st.views, j, Sent(N, st.views[j], st.errors, room).0);
      }
    }
  }

  /** With no new producers, 2 * messages + errors actions empty every queue, whatever the space in
      the character buffer. */
  lemma {:induction false} QueuesDrain(N: nat, st: TxState, rooms: seq<nat>)
    requires ValidState(st) && |rooms| >= Load(st)
    ensures Load(TxRun(N, st, rooms).0) == 0
    decreases rooms
  {
    if rooms != [] {
      TxNextUnloads(N, st, rooms[0]);
      TxNextKeepsValid(N, st, rooms[0]);
      QueuesDrain(N, TxNext(N, st, rooms[0]).0, rooms[1..]);
    }
  }

  /** A regular message is taken only when the dispatcher's and every subsystem's error queue is
      empty, and then an error it raises is never dropped. */
  lemma MessagesComeLast(N: nat, st: TxState, room: nat, i: nat)
    requires ValidState(st) && i < |st.views|
    requires TxNext(N, st, room).0.views[i].outgoing != st.views[i].outgoing
    ensures st.errors == []
    ensures forall k :: 0 <= k < |st.views| ==> QueueLength(st.views[k].errors) == 0
    ensures forall k :: 0 <= k < i ==> QueueLength(st.views[k].outgoing) == 0
    ensures var before, after := st.views[i].outgoing.value, TxNext(N, st, room).0.views[i].outgoing.value;
            before == [before[0]] + after
    ensures var (st', pieces) := TxNext(N, st, room);
            if |pieces| == 1 && pieces[0].Whole? then st'.errors == [] else |st'.errors| == 1
  {
  }

  // ----------------------------------------------- the line and its receiver

  /** Text that cannot disturb the framing. */
  ghost predicate Clean(s: string) {
    && (forall k :: 0 <= k < |s| ==> s[k] != '$' && s[k] != CText.NUL)
    && (forall k :: 0 <= k < |s| - 1 ==> !(s[k] == '\r' && s[k + 1] == '\n'))
  }

  lemma CleanJoin(a: string, b: string)
    requires Clean(a) && Clean(b) && (b != [] ==> b[0] != '\n')
    ensures Clean(a + b)
  {
    var s := a + b;
    forall k | 0 <= k < |s| - 1
      ensures !(s[k] == '\r' && s[k + 1] == '\n')
    {
      if |a| <= k {
        assert s[k] == b[k - |a|] && s[k + 1] == b[k + 1 - |a|];
      }
    }
  }

  /** Names are non-empty and clean, and what the serializers print is clean and led by a comma. */
  ghost predicate CleanConf(conf: Conf) {
    && conf.name != [] && Clean(conf.name) && conf.name[0] != '\n'
    && (forall t :: 0 <= t < |conf.handlers| ==>
          var hd := conf.handlers[t];
          && hd.name != [] && Clean(hd.name) && hd.name[0] != '\n'
          && (hd.serialize.Some? ==>
                forall p, n :: var out := hd.serialize.value(p, n);
                               out.Some? && out.value != [] ==> Clean(out.value) && out.value[0] == ','))
  }

  ghost predicate CleanState(st: TxState) {
    forall i :: 0 <= i < |st.views| ==> CleanConf(st.views[i].conf)
  }

  lemma DecimalIsClean(n: nat)
    ensures Clean(CText.Decimal(n)) && CText.Decimal(n)[0] != '\n'
  {
  }

  lemma CleanIsDeliverable(N: nat, b: string)
    requires Clean(b) && 5 <= |b| <= N - 5
    ensures Deliverable(N, b)
  {
  }

  lemma CommaJoin(a: string, b: string)
    requires Clean(a) && Clean(b) && (b != [] ==> b[0] != '\n')
    ensures Clean(a + "," + b)
  {
    CleanJoin(",", b);
    CleanJoin(a, "," + b);
    assert a + "," + b == a + ("," + b);
  }

  /** Every frame the encoder emits fits the receiver's buffer, and closes where it should. */
  lemma RenderedIsDeliverable(N: nat, conf: Conf, hdr: Header)
    requires CleanConf(conf) && Render(N, conf, hdr).Body?
    ensures Clean(Render(N, conf, hdr).text)
    ensures Deliverable(N, Render(N, conf, hdr).text) && |Frame(Render(N, conf, hdr).text)| < N
  {
    var id, name := CText.Decimal(hdr.transactionId), conf.handlers[hdr.msgType].name;
    var prefix := Prefix(conf, hdr);
    DecimalIsClean(hdr.transactionId);
    CommaJoin(id, conf.name);
    CommaJoin(id + "," + conf.name, name);
    assert prefix == id + "," + conf.name + "," + name;
    var payload := conf.handlers[hdr.msgType].serialize.value(hdr.payload, N - 1 - |prefix|).value;
    CleanJoin(prefix, payload);
    CleanIsDeliverable(N, prefix + payload);
  }

  lemma ErrorIsDeliverable(N: nat, name: string, code: int)
    requires Clean(name) && |Frame(ErrorBody(name, code))| < N
    ensures Deliverable(N, ErrorBody(name, code))
  {
    var digits := CText.SignedDecimal(code);
    assert Clean(digits) && digits[0] != '\n';
    CleanJoin(",ERROR,", digits);
    CleanJoin(name, ",ERROR," + digits);
    assert ErrorBody(name, code) == name + (",ERROR," + digits);
    CleanIsDeliverable(N, ErrorBody(name, code));
  }

  lemma TxNextIsClean(N: nat, st: TxState, room: nat)
    requires ValidState(st) && CleanState(st)
    ensures CleanState(TxNext(N, st, room).0)
    ensures forall k :: 0 <= k < |TxNext(N, st, room).1| ==> ValidPiece(N, TxNext(N, st, room).1[k])
  {
    var i, j := FirstError(st.views), FirstMessage(st.views);
    if st.errors != [] {
      assert Clean("DISPATCHER");
      if |Frame(ErrorBody("DISPATCHER", st.errors[0]))| < N {
        ErrorIsDeliverable(N, "DISPATCHER", st.errors[0]);
      }
    } else if i < |st.views| {
      var v := st.views[i];
      if |Frame(ErrorBody(v.conf.name, v.errors.value[0]))| < N {
        ErrorIsDeliverable(N, v.conf.name, v.errors.value[0]);
      }
    } else if j < |st.views| {
      var v := st.views[j];
      var hdr := v.pool.heap[v.outgoing.value[0]];
      if Render(N, v.conf, hdr).Body? {
        RenderedIsDeliverable(N, v.conf, hdr);
      }
    }
  }

  lemma {:induction false} TxRunIsClean(N: nat, st: TxState, rooms: seq<nat>)
    requires ValidState(st) && CleanState(st)
    ensures forall k :: 0 <= k < |TxRun(N, st, rooms).1| ==> ValidPiece(N, TxRun(N, st, rooms).1[k])
    decreases rooms
  {
    if rooms != [] {
      TxNextKeepsValid(N, st, rooms[0]);
      TxNextIsClean(N, st, rooms[0]);
      TxRunIsClean(N, TxNext(N, st, rooms[0]).0, rooms[1..]);
    }
  }

  /** What a transmitting task writes in any run, with any short writes in between, a receiver in
      any state turns into exactly the bodies of the frames that were written in full. */
  lemma LineIsUnderstood(N: nat, st: TxState, rooms: seq<nat>, rx: Receiver.State)
    requires ValidState(st) && CleanState(st)
    ensures Receiver.Run(N, rx, Line(TxRun(N, st, rooms).1)).1 == Delivered(TxRun(N, st, rooms).1)
  {
    TxRunIsClean(N, st, rooms);
    TruncationIsHarmless(N, rx, TxRun(N, st, rooms).1);
  }

  // ------------------------------------------------------------ round trip

  lemma TokenThen(text: string, rest: string)
    requires text != [] && CText.CommaFree(text)
    ensures CText.NextToken(text + ("," + rest)) == Some(CText.Token(text, rest))
  {
    var tail := "," + rest;
    assert tail[1..] == rest;
    CText.NextTokenOf(text, tail);
  }

  lemma RequestOfTokens(body: string, id: CText.Token, subsystem: CText.Token, message: CText.Token, n: nat)
    requires id.text != []
    ensures CText.NextToken(body) == Some(id) && CText.NextToken(id.rest) == Some(subsystem)
            && CText.NextToken(subsystem.rest) == Some(message)
            && CText.Strtoul(id.text, 10) == CText.Number(n, |id.text|, false)
            ==> HasToken(body) && ParseRequest(body) == Request(n, subsystem.text, message.text, message.rest)
  {
  }

  /** The three tokens of a body are the three names it was put together from. */
  lemma RequestOfBody(id: nat, subsystem: string, message: string, payload: string)
    requires id <= CText.ULONG_MAX
    requires subsystem != [] && CText.CommaFree(subsystem) && message != [] && CText.CommaFree(message)
    requires payload != [] && payload[0] == ','
    ensures var body := CText.Decimal(id) + "," + subsystem + "," + message + payload;
            HasToken(body) && ParseRequest(body) == Request(id, subsystem, message, payload[1..])
  {
    var digits := CText.Decimal(id);
    var rest3 := payload[1..];
    var rest2 := message + ("," + rest3);
    var rest1 := subsystem + ("," + rest2);
    var body := digits + ("," + rest1);
    CText.DecimalRoundTrip(id);
    TokenThen(digits, rest1);
    TokenThen(subsystem, rest2);
    TokenThen(message, rest3);
    RequestOfTokens(body, CText.Token(digits, rest1), CText.Token(subsystem, rest2),
                    CText.Token(message, rest3), id);
    BodyRegrouped(digits, subsystem, message, payload);
  }

  lemma BodyRegrouped(digits: string, subsystem: string, message: string, payload: string)
    requires payload != [] && payload[0] == ','
    ensures digits + "," + subsystem + "," + message + payload
            == digits + ("," + (subsystem + ("," + (message + ("," + payload[1..])))))
  {
    assert payload == "," + payload[1..];
  }

  /** A message that is rendered, framed, received and tokenised comes out with the id, the
      subsystem, the message name and the payload text that went in. */
  lemma MessageRoundTrip(N: nat, rx: Receiver.State, conf: Conf, hdr: Header)
    requires CleanConf(conf) && Render(N, conf, hdr).Body?
    requires hdr.transactionId <= CText.ULONG_MAX
    requires CText.CommaFree(conf.name) && CText.CommaFree(conf.handlers[hdr.msgType].name)
    ensures var handler := conf.handlers[hdr.msgType];
            var payload := handler.serialize.value(hdr.payload, N - 1 - |Prefix(conf, hdr)|).value;
            var body := Prefix(conf, hdr) + payload;
            && Receiver.Run(N, rx, Frame(body)) == (Receiver.Idle, [Receiver.Dispatch(body)])
            && CText.CStr(body) == body && HasToken(body)
            && ParseRequest(body) == Request(hdr.transactionId, conf.name, handler.name, payload[1..])
  {
    var handler := conf.handlers[hdr.msgType];
    var payload := handler.serialize.value(hdr.payload, N - 1 - |Prefix(conf, hdr)|).value;
    var body := Prefix(conf, hdr) + payload;
    RenderedIsDeliverable(N, conf, hdr);
    FrameArrives(N, rx, body, body);
    CText.CStrOfClean(body);
    RequestOfBody(hdr.transactionId, conf.name, handler.name, payload);
  }

  /** An error report comes out with the name and the code it was made of, and the word between them. */
  lemma ErrorRoundTrip(N: nat, rx: Receiver.State, name: string, code: int)
    requires Clean(name) && name != [] && CText.CommaFree(name)
    requires -0x8000_0000 <= code < 0x8000_0000
    requires |Frame(ErrorBody(name, code))| < N
    ensures var body, digits := ErrorBody(name, code), CText.SignedDecimal(code);
            && Receiver.Run(N, rx, Line(ErrorPieces(N, name, code))) == (Receiver.Idle, [Receiver.Dispatch(body)])
            && CText.NextToken(body) == Some(CText.Token(name, "ERROR," + digits))
            && CText.NextToken("ERROR," + digits) == Some(CText.Token("ERROR", digits))
            && CText.NextToken(digits) == Some(CText.Token(digits, ""))
            && CText.Strtoul(digits, 10)
               == CText.Number(if code < 0 then code + 0x1_0000_0000 else code, |digits|, false)
  {
    var body, digits := ErrorBody(name, code), CText.SignedDecimal(code);
    ErrorIsDeliverable(N, name, code);
    LineOfOne(Whole(body));
    FrameArrives(N, rx, body, body);
    ErrorTokens(name, digits, "ERROR," + digits, body);
    CText.SignedRoundTrip(code);
  }

  lemma ErrorTokens(name: string, digits: string, rest: string, body: string)
    requires name != [] && CText.CommaFree(name) && digits != [] && CText.CommaFree(digits)
    requires rest == "ERROR," + digits && body == name + ",ERROR," + digits
    ensures CText.NextToken(body) == Some(CText.Token(name, rest))
    ensures CText.NextToken(rest) == Some(CText.Token("ERROR", digits))
    ensures CText.NextToken(digits) == Some(CText.Token(digits, ""))
  {
    FirstErrorToken(name, digits, rest, body);
    ErrorWord(digits, rest);
    LastToken(digits);
  }

  lemma FirstErrorToken(name: string, digits: string, rest: string, body: string)
    requires name != [] && CText.CommaFree(name)
    requires rest == "ERROR," + digits && body == name + ",ERROR," + digits
    ensures CText.NextToken(body) == Some(CText.Token(name, rest))
  {
    assert ",ERROR," == "," + "ERROR,";
    Regrouped(name, ",", "ERROR,", digits);
    TokenThen(name, rest);
  }

  lemma Regrouped(a: string, b: string, c: string, d: string)
    ensures a + (b + c) + d == a + (b + (c + d))
  {
  }

  lemma LastToken(text: string)
    requires text != [] && CText.CommaFree(text)
    ensures CText.NextToken(text) == Some(CText.Token(text, ""))
  {
    assert text + "" == text;
    CText.NextTokenOf(text, "");
  }

  lemma ErrorWord(digits: string, rest: string)
    requires rest == "ERROR," + digits
    ensures CText.NextToken(rest) == Some(CText.Token("ERROR", digits))
  {
    assert rest == "ERROR" + ("," + digits);
    TokenThen("ERROR", digits);
  }

  // --------------------------------------------------- exactly one outcome

  ghost predicate FirstNamed(names: seq<string>, name: string, i: nat) {
    i < |names| && names[i] == name && forall k :: 0 <= k < i ==> names[k] != name
  }

  /** The handler parses the text, and there are a header, a slot and a place in the queue for it. */
  ghost predicate Accepts(v: View, t: nat, rest: string, payload: Payload)
    requires ValidView(v) && t < |v.conf.handlers|
  {
    && v.conf.handlers[t].parse.Some?
    && v.pool.CanAlloc(v.conf.slotClasses[t])
    && v.conf.handlers[t].parse.value(rest) == Some(payload)
    && |v.incoming| < v.conf.incomingCapacity
  }

  /** A message is enqueued exactly when the whole chain holds: it is the first handler of its name
      in the first subsystem of its name, there is a header and a slot for it, its payload parses
      and the queue has room; it then carries the id that was parsed. Everything else is refused. */
  lemma EnqueuedIff(views: seq<View>, r: Request, i: nat, t: nat, id: nat, payload: Payload)
    requires forall k :: 0 <= k < |views| ==> ValidView(views[k])
    ensures Decide(views, r) == Enqueue(i, t, id, payload) <==>
              && r.Request? && id == r.id
              && FirstNamed(Names(views), r.subsystem, i)
              && FirstNamed(HandlerNames(views[i].conf), r.message, t)
              && Accepts(views[i], t, r.rest, payload)
  {
    if r.Request? {
      if FirstNamed(Names(views), r.subsystem, i) {
        FindFirstIs(Names(views), r.subsystem, i);
        if FirstNamed(HandlerNames(views[i].conf), r.message, t) {
          FindFirstIs(HandlerNames(views[i].conf), r.message, t);
        }
      }
    }
  }

  /** The first subsystem of that name has no handler of that name. */
  ghost predicate UnknownType(views: seq<View>, r: Request) {
    && r.Request?
    && exists i: nat ::
         && FirstNamed(Names(views), r.subsystem, i)
         && forall t :: 0 <= t < |views[i].conf.handlers| ==> views[i].conf.handlers[t].name != r.message
  }

  /** From one board to another: a message that one renders is queued on the other, under the same
      transaction id and with the payload that the receiving parser reads from the text the sending
      serializer printed, whenever the other has that subsystem, that message and the resources. */
  lemma MessageIsEnqueued(N: nat, rx: Receiver.State, conf: Conf, hdr: Header, text: string,
                          views: seq<View>, i: nat, t: nat, payload: Payload)
    requires CleanConf(conf) && Render(N, conf, hdr).Body? && hdr.transactionId <= CText.ULONG_MAX
    requires CText.CommaFree(conf.name) && CText.CommaFree(conf.handlers[hdr.msgType].name)
    requires Render(N, conf, hdr).text == Prefix(conf, hdr) + text
    requires forall k :: 0 <= k < |views| ==> ValidView(views[k])
    requires FirstNamed(Names(views), conf.name, i)
    requires FirstNamed(HandlerNames(views[i].conf), conf.handlers[hdr.msgType].name, t)
    requires text != [] && Accepts(views[i], t, text[1..], payload)
    ensures var body := Render(N, conf, hdr).text;
            && Receiver.Run(N, rx, Frame(body)) == (Receiver.Idle, [Receiver.Dispatch(body)])
            && HasToken(CText.CStr(body))
            && Decide(views, ParseRequest(CText.CStr(body))) == Enqueue(i, t, hdr.transactionId, payload)
  {
    var printed := conf.handlers[hdr.msgType].serialize.value(hdr.payload, N - 1 - |Prefix(conf, hdr)|).value;
    SuffixIs(Prefix(conf, hdr), text, printed);
    MessageRoundTrip(N, rx, conf, hdr);
    EnqueuedIff(views, ParseRequest(Render(N, conf, hdr).text), i, t, hdr.transactionId, payload);
  }

  lemma SuffixIs(prefix: string, a: string, b: string)
    requires prefix + a == prefix + b
    ensures a == b
  {
    assert a == (prefix + a)[|prefix|..] && b == (prefix + b)[|prefix|..];
  }

  /** The request finds a handler, and the reason for its refusal is what is wrong with it. The codes
      are the numbers that a host gets to see. */
  lemma RefusedFor(views: seq<View>, r: Request, i: nat, t: nat)
    requires forall k :: 0 <= k < |views| ==> ValidView(views[k])
    requires r.Request? && FirstNamed(Names(views), r.subsystem, i)
    requires FirstNamed(HandlerNames(views[i].conf), r.message, t)
    ensures var v := views[i];
            var parse, verdict := v.conf.handlers[t].parse, Decide(views, r);
            var allocates := parse.Some? && v.pool.CanAlloc(v.conf.slotClasses[t]);
            && (verdict == Refuse(-8) <==> parse.None?)
            && (verdict == Refuse(-4) <==> parse.Some? && !allocates)
            && (verdict == Refuse(-2) <==> allocates && parse.value(r.rest).None?)
            && (verdict == Refuse(-5) <==>
                  allocates && parse.value(r.rest).Some? && |v.incoming| >= v.conf.incomingCapacity)
  {
    FindFirstIs(Names(views), r.subsystem, i);
    FindFirstIs(HandlerNames(views[i].conf), r.message, t);
  }

  /** The two errors about names are raised exactly when a name is not registered: no subsystem has
      the one, or no handler of the first subsystem of that name has the other. */
  lemma RefusedBecause(views: seq<View>, r: Request)
    requires forall k :: 0 <= k < |views| ==> ValidView(views[k])
    requires Decide(views, r).Refuse?
    ensures var code := Decide(views, r).code;
            && (r.Malformed? ==> code == -2)
            && (code == -6 <==>
                  r.Request? && forall k :: 0 <= k < |views| ==> views[k].conf.name != r.subsystem)
            && (code == -7 <==> UnknownType(views, r))
            && code in [-2, -4, -5, -6, -7, -8]
  {
    if r.Request? {
      var names := Names(views);
      var i := FindFirst(names, r.subsystem);
      assert forall k :: 0 <= k < |views| ==> views[k].conf.name == names[k];
      forall k: nat | FirstNamed(names, r.subsystem, k)
        ensures k == i
      {
        FindFirstIs(names, r.subsystem, k);
      }
      if i < |views| {
        assert FirstNamed(names, r.subsystem, i);
        var handlerNames := HandlerNames(views[i].conf);
        var t := FindFirst(handlerNames, r.message);
        assert forall k :: 0 <= k < |handlerNames| ==> views[i].conf.handlers[k].name == handlerNames[k];
      }
    }
  }
}
