/** What arrives: from the queues of one board, over the line, to the queues of another
    (src/message_dispatcher.c). Nothing here mentions how a body is put together. */
module Delivery {

  import opened Options
  import opened Pools
  import opened Dispatcher
  import opened Framing
  import opened TxWorker
  import opened Transmission
  import Receiver
  import RxWorker
  import CText

  // ------------------------------------------------- the first message in line

  /** No error waits anywhere, and h is the first message of the first subsystem that has one. */
  ghost predicate NextInLine(st: TxState, i: nat, h: nat) {
    && ValidState(st) && st.errors == []
    && (forall k :: 0 <= k < |st.views| ==> QueueLength(st.views[k].errors) == 0)
    && (forall k :: 0 <= k < i && k < |st.views| ==> QueueLength(st.views[k].outgoing) == 0)
    && i < |st.views| && QueueLength(st.views[i].outgoing) > 0 && st.views[i].outgoing.value[0] == h
  }

  lemma NextInLineIsFound(N: nat, st: TxState, i: nat, h: nat, room: nat)
    requires NextInLine(st, i, h)
    ensures TxNext(N, st, room) == MessageSent(N, st, i, room)
  {
    assert FirstError(st.views) == |st.views|;
    assert FirstMessage(st.views) == i;
  }

  predicate HasSerializer(conf: Conf, hdr: Header) {
    hdr.msgType < |conf.handlers| && conf.handlers[hdr.msgType].serialize.Some?
  }

  /** The characters of "<id>,<subsystem>,<message>". */
  function HeadLength(conf: Conf, hdr: Header): nat
    requires hdr.msgType < |conf.handlers|
  {
    |CText.Decimal(hdr.transactionId)| + |conf.name| + |conf.handlers[hdr.msgType].name| + 2
  }

  /** What the serializer prints into the space that is left. */
  function Printed(N: nat, conf: Conf, hdr: Header): string
    requires HasSerializer(conf, hdr)
  {
    if HeadLength(conf, hdr) + 1 >= N then []
    else
      match conf.handlers[hdr.msgType].serialize.value(hdr.payload, N - 1 - HeadLength(conf, hdr))
      case None => []
      case Some(text) => text
  }

  /** '$', the head, the payload, '*', two digits, CRLF. */
  function FrameLength(N: nat, conf: Conf, hdr: Header): nat
    requires HasSerializer(conf, hdr)
  {
    HeadLength(conf, hdr) + |Printed(N, conf, hdr)| + 6
  }

  /** The message can be written in a buffer of N characters. */
  predicate Sendable(N: nat, conf: Conf, hdr: Header) {
    HasSerializer(conf, hdr) && Printed(N, conf, hdr) != [] && FrameLength(N, conf, hdr) < N
  }

  lemma RenderOf(N: nat, conf: Conf, hdr: Header)
    ensures Render(N, conf, hdr).Body? <==> Sendable(N, conf, hdr)
    ensures Sendable(N, conf, hdr) ==>
              && Render(N, conf, hdr).text == Prefix(conf, hdr) + Printed(N, conf, hdr)
              && |Frame(Render(N, conf, hdr).text)| == FrameLength(N, conf, hdr)
  {
    if hdr.msgType < |conf.handlers| {
      PrefixLength(conf, hdr);
    }
  }

  /** Its names hold no comma and its id is a 32-bit number. */
  predicate Plain(conf: Conf, hdr: Header)
    requires hdr.msgType < |conf.handlers|
  {
    && CText.CommaFree(conf.name) && CText.CommaFree(conf.handlers[hdr.msgType].name)
    && hdr.transactionId <= CText.ULONG_MAX
  }

  /** The request that a receiver must read from a message. */
  function RequestFor(N: nat, conf: Conf, hdr: Header): Request
    requires Sendable(N, conf, hdr)
  {
    Request(hdr.transactionId, conf.name, conf.handlers[hdr.msgType].name, Printed(N, conf, hdr)[1..])
  }

  /** The body carries the request. */
  ghost predicate Carries(event: Receiver.Event, r: Request) {
    event.Dispatch? && HasToken(CText.CStr(event.body)) && ParseRequest(CText.CStr(event.body)) == r
  }

  /** With room for it, the message whose turn it is is written, and whatever receiver reads the line
      is handed one body, which asks for just that: the id, the subsystem and the name of the message,
      and the text that was printed for it. */
  lemma FirstMessageArrives(N: nat, st: TxState, room: nat, rx: Receiver.State, i: nat, h: nat)
    returns (event: Receiver.Event)
    requires NextInLine(st, i, h) && CleanState(st)
    requires Sendable(N, st.views[i].conf, st.views[i].pool.heap[h])
    requires Plain(st.views[i].conf, st.views[i].pool.heap[h])
    requires room >= FrameLength(N, st.views[i].conf, st.views[i].pool.heap[h])
    ensures Receiver.Run(N, rx, Line(TxNext(N, st, room).1)) == (Receiver.Idle, [event])
    ensures Carries(event, RequestFor(N, st.views[i].conf, st.views[i].pool.heap[h]))
    ensures TxNext(N, st, room).0.errors == []
  {
    var body := WholeFrameIsSent(N, st, room, i, h);
    event := RenderedArrives(N, rx, st.views[i].conf, st.views[i].pool.heap[h]);
  }

  lemma WholeFrameIsSent(N: nat, st: TxState, room: nat, i: nat, h: nat) returns (body: string)
    requires NextInLine(st, i, h) && Sendable(N, st.views[i].conf, st.views[i].pool.heap[h])
    requires room >= FrameLength(N, st.views[i].conf, st.views[i].pool.heap[h])
    ensures Render(N, st.views[i].conf, st.views[i].pool.heap[h]) == Body(body)
    ensures Line(TxNext(N, st, room).1) == Frame(body) && TxNext(N, st, room).0.errors == []
  {
    NextInLineIsFound(N, st, i, h, room);
    RenderOf(N, st.views[i].conf, st.views[i].pool.heap[h]);
    body := Render(N, st.views[i].conf, st.views[i].pool.heap[h]).text;
    LineOfOne(Whole(body));
  }

  lemma RenderedArrives(N: nat, rx: Receiver.State, conf: Conf, hdr: Header) returns (event: Receiver.Event)
    requires CleanConf(conf) && Sendable(N, conf, hdr) && Plain(conf, hdr)
    ensures Render(N, conf, hdr).Body?
    ensures Receiver.Run(N, rx, Frame(Render(N, conf, hdr).text)) == (Receiver.Idle, [event])
    ensures Carries(event, RequestFor(N, conf, hdr))
  {
    RenderOf(N, conf, hdr);
    var body, text := Render(N, conf, hdr).text, Printed(N, conf, hdr);
    RenderedIsDeliverable(N, conf, hdr);
    FrameArrives(N, rx, body, body);
    event := Receiver.Dispatch(body);
    PrintedIsClean(N, conf, hdr);
    BodyCarries(conf, hdr, body, text);
  }

  lemma PrintedIsClean(N: nat, conf: Conf, hdr: Header)
    requires CleanConf(conf) && Sendable(N, conf, hdr)
    ensures Printed(N, conf, hdr)[0] == ','
  {
  }

  lemma BodyCarries(conf: Conf, hdr: Header, body: string, text: string)
    requires hdr.msgType < |conf.handlers| && Plain(conf, hdr) && Clean(body)
    requires conf.name != [] && conf.handlers[hdr.msgType].name != [] && text != [] && text[0] == ','
    requires body == Prefix(conf, hdr) + text
    ensures Carries(Receiver.Dispatch(body),
                    Request(hdr.transactionId, conf.name, conf.handlers[hdr.msgType].name, text[1..]))
  {
    CText.CStrOfClean(body);
    RequestOfBody(hdr.transactionId, conf.name, conf.handlers[hdr.msgType].name, text);
  }

  lemma PrefixLength(conf: Conf, hdr: Header)
    requires hdr.msgType < |conf.handlers|
    ensures |Prefix(conf, hdr)| == HeadLength(conf, hdr)
  {
  }

  /** On every path, whatever the room: the message leaves its queue, its header is free again, its slot
      is back in the pool of its class, and nothing else has changed. */
  lemma FirstMessageIsReleased(N: nat, st: TxState, room: nat, i: nat, h: nat)
    requires NextInLine(st, i, h)
    ensures var v, v' := st.views[i], TxNext(N, st, room).0.views[i];
            var slot, cls := v.pool.heap[h].slot, v.conf.slotClasses[v.pool.heap[h].msgType];
            && v.outgoing.value == [h] + v'.outgoing.value
            && v'.pool.headers == v.pool.headers + {h}
            && v'.pool.small == (if cls == SmallSlot then v.pool.small + {slot} else v.pool.small)
            && v'.pool.plan == (if cls == PlanSlot then v.pool.plan + {slot} else v.pool.plan)
            && v'.pool.heap == v.pool.heap
            && v'.conf == v.conf && v'.incoming == v.incoming && v'.errors == v.errors
    ensures |TxNext(N, st, room).0.views| == |st.views|
    ensures forall k :: 0 <= k < |st.views| && k != i ==> TxNext(N, st, room).0.views[k] == st.views[k]
  {
    NextInLineIsFound(N, st, i, h, room);
  }

  /** ... and exactly one thing is reported: nothing, when the whole frame was written; that the
      character buffer is full, when only a part of it was; or the stage at which it failed. */
  lemma FirstMessageReports(N: nat, st: TxState, room: nat, i: nat, h: nat)
    requires NextInLine(st, i, h)
    ensures var conf, hdr := st.views[i].conf, st.views[i].pool.heap[h];
            var (st', pieces) := TxNext(N, st, room);
            if !HasSerializer(conf, hdr) then st'.errors == [-8] && pieces == []
            else if HeadLength(conf, hdr) + 1 >= N then st'.errors == [-11] && pieces == []
            else if Printed(N, conf, hdr) == [] then st'.errors == [-3] && pieces == []
            else if FrameLength(N, conf, hdr) >= N then st'.errors == [-11] && pieces == []
            else if FrameLength(N, conf, hdr) > room then st'.errors == [-9]
            else st'.errors == []
  {
    NextInLineIsFound(N, st, i, h, room);
    RenderReports(N, st.views[i].conf, st.views[i].pool.heap[h]);
  }

  lemma RenderReports(N: nat, conf: Conf, hdr: Header)
    ensures var r := Render(N, conf, hdr);
            if !HasSerializer(conf, hdr) then r == Failed(-8)
            else if HeadLength(conf, hdr) + 1 >= N then r == Failed(-11)
            else if Printed(N, conf, hdr) == [] then r == Failed(-3)
            else if FrameLength(N, conf, hdr) >= N then r == Failed(-11)
            else r.Body? && |Frame(r.text)| == FrameLength(N, conf, hdr)
  {
    if hdr.msgType < |conf.handlers| {
      PrefixLength(conf, hdr);
    }
  }

  /** A short write writes a prefix of the frame, as long as there is room. */
  lemma ShortWriteIsPrefix(N: nat, st: TxState, room: nat, i: nat, h: nat)
    requires NextInLine(st, i, h) && Sendable(N, st.views[i].conf, st.views[i].pool.heap[h])
    ensures var length := FrameLength(N, st.views[i].conf, st.views[i].pool.heap[h]);
            && |Line(TxNext(N, st, length).1)| == length
            && (room <= length ==> Line(TxNext(N, st, room).1) == Line(TxNext(N, st, length).1)[..room])
  {
    var conf, hdr := st.views[i].conf, st.views[i].pool.heap[h];
    var length := FrameLength(N, conf, hdr);
    NextInLineIsFound(N, st, i, h, room);
    NextInLineIsFound(N, st, i, h, length);
    RenderOf(N, conf, hdr);
    var body := Render(N, conf, hdr).text;
    LineOfOne(Whole(body));
    LineOfOne(Cut(body, room));
    assert Frame(body)[..length] == Frame(body);
  }

  // ------------------------------------------------------------- whole queues

  ghost predicate AllSendable(N: nat, v: View) {
    v.outgoing.Some? ==>
      forall k :: 0 <= k < |v.outgoing.value| ==>
        v.outgoing.value[k] in v.pool.heap && SendsPlain(N, v.conf, v.pool.heap[v.outgoing.value[k]])
  }

  predicate SendsPlain(N: nat, conf: Conf, hdr: Header) {
    Sendable(N, conf, hdr) && Plain(conf, hdr)
  }

  ghost predicate AllOf(N: nat, views: seq<View>) {
    forall k :: 0 <= k < |views| ==> AllSendable(N, views[k])
  }

  /** The requests of the messages that wait in one subsystem, in order. */
  ghost function RequestsOf(N: nat, v: View): (rs: seq<Request>)
    requires AllSendable(N, v)
    ensures |rs| == QueueLength(v.outgoing)
    ensures forall k :: 0 <= k < |rs| ==> rs[k] == RequestFor(N, v.conf, v.pool.heap[v.outgoing.value[k]])
  {
    if v.outgoing.None? then []
    else
      seq(|v.outgoing.value|, k requires 0 <= k < |v.outgoing.value| =>
        RequestFor(N, v.conf, v.pool.heap[v.outgoing.value[k]]))
  }

  /** ... and in all of them, one subsystem after the other. */
  ghost function AllRequests(N: nat, views: seq<View>): seq<Request>
    requires AllOf(N, views)
  {
    if views == [] then [] else RequestsOf(N, views[0]) + AllRequests(N, views[1..])
  }

  lemma {:induction false} FirstRequest(N: nat, views: seq<View>, i: nat, changed: seq<View>, r: Request)
    requires i < |views| == |changed| && AllOf(N, views) && AllOf(N, changed)
    requires forall k :: 0 <= k < i ==> RequestsOf(N, views[k]) == []
    requires forall k :: 0 <= k < |views| && k != i ==> changed[k] == views[k]
    requires RequestsOf(N, views[i]) == [r] + RequestsOf(N, changed[i])
    ensures AllRequests(N, views) == [r] + AllRequests(N, changed)
  {
    if i == 0 {
      assert changed[1..] == views[1..];
      Regrouped(r, RequestsOf(N, changed[0]), AllRequests(N, views[1..]));
    } else {
      assert RequestsOf(N, views[0]) == [];
      Unlead(AllRequests(N, views[1..]));
      Unlead(AllRequests(N, changed[1..]));
      FirstRequest(N, views[1..], i - 1, changed[1..], r);
    }
  }

  lemma Regrouped(r: Request, a: seq<Request>, b: seq<Request>)
    ensures [r] + a + b == [r] + (a + b)
  {
  }

  lemma Unlead(a: seq<Request>)
    ensures [] + a == a
  {
  }

  lemma {:induction false} NoRequests(N: nat, views: seq<View>)
    requires AllOf(N, views)
    requires forall k :: 0 <= k < |views| ==> QueueLength(views[k].outgoing) == 0
    ensures AllRequests(N, views) == []
  {
    if views != [] {
      NoRequests(N, views[1..]);
    }
  }

  /** Only sendable messages wait, and no errors. */
  ghost predicate Orderly(N: nat, st: TxState) {
    && ValidState(st) && CleanState(st) && st.errors == []
    && (forall k :: 0 <= k < |st.views| ==> QueueLength(st.views[k].errors) == 0) && AllOf(N, st.views)
  }

  lemma QueueWithoutFirst(N: nat, v: View, v': View, h: nat)
    requires AllSendable(N, v) && v.outgoing.Some? && v'.outgoing.Some?
    requires v.outgoing.value == [h] + v'.outgoing.value
    requires v'.conf == v.conf && v'.pool.heap == v.pool.heap
    ensures AllSendable(N, v') && RequestsOf(N, v) == [RequestsOf(N, v)[0]] + RequestsOf(N, v')
    ensures RequestsOf(N, v)[0] == RequestFor(N, v.conf, v.pool.heap[h])
  {
    assert forall k :: 0 <= k < |v'.outgoing.value| ==> v'.outgoing.value[k] == v.outgoing.value[k + 1];
    RequestsShift(RequestsOf(N, v), RequestsOf(N, v'));
  }

  lemma RequestsShift(rs: seq<Request>, rest: seq<Request>)
    requires |rs| == |rest| + 1 && forall k :: 0 <= k < |rest| ==> rest[k] == rs[k + 1]
    ensures rs == [rs[0]] + rest
  {
  }

  lemma LineOfBoth(p: seq<Piece>, q: seq<Piece>)
    ensures Line(p + q) == Line(p) + Line(q)
  {
    if p == [] {
      assert p + q == q;
    } else {
      assert (p + q)[1..] == p[1..] + q;
      LineOfBoth(p[1..], q);
    }
  }

  /** The i-th event carries the i-th request. */
  ghost predicate AllCarried(events: seq<Receiver.Event>, rs: seq<Request>) {
    |events| == |rs| && forall k :: 0 <= k < |rs| ==> Carries(events[k], rs[k])
  }

  lemma CarriedInFront(event: Receiver.Event, events: seq<Receiver.Event>, rs: seq<Request>)
    requires rs != [] && Carries(event, rs[0]) && AllCarried(events, rs[1..])
    ensures AllCarried([event] + events, rs)
  {
  }

  /** An action on an orderly state with a message takes that message and leaves an orderly state. */
  lemma OrderlyStep(N: nat, st: TxState, room: nat, i: nat, h: nat)
    requires Orderly(N, st) && NextInLine(st, i, h) && room >= N
    ensures Orderly(N, TxNext(N, st, room).0)
    ensures |AllRequests(N, st.views)| > 0
    ensures Sendable(N, st.views[i].conf, st.views[i].pool.heap[h])
    ensures AllRequests(N, st.views)[0] == RequestFor(N, st.views[i].conf, st.views[i].pool.heap[h])
    ensures AllRequests(N, TxNext(N, st, room).0.views) == AllRequests(N, st.views)[1..]
  {
    var v, st' := st.views[i], TxNext(N, st, room).0;
    assert SendsPlain(N, v.conf, v.pool.heap[h]);
    FirstMessageReports(N, st, room, i, h);
    FirstMessageIsReleased(N, st, room, i, h);
    QueueWithoutFirst(N, v, st'.views[i], h);
    TxNextKeepsValid(N, st, room);
    StaysOrderly(N, st, st', i);
    RequestsWithoutFirst(N, st, st'.views, i, h);
  }

  lemma RequestsWithoutFirst(N: nat, st: TxState, changed: seq<View>, i: nat, h: nat)
    requires NextInLine(st, i, h) && AllOf(N, st.views) && AllOf(N, changed) && |changed| == |st.views|
    requires forall k :: 0 <= k < |st.views| && k != i ==> changed[k] == st.views[k]
    requires RequestsOf(N, st.views[i]) == [RequestsOf(N, st.views[i])[0]] + RequestsOf(N, changed[i])
    ensures AllRequests(N, st.views) == [RequestsOf(N, st.views[i])[0]] + AllRequests(N, changed)
  {
    NoEarlierRequests(N, st, i, h);
    FirstRequest(N, st.views, i, changed, RequestsOf(N, st.views[i])[0]);
  }

  lemma StaysOrderly(N: nat, st: TxState, st': TxState, i: nat)
    requires Orderly(N, st) && ValidState(st') && i < |st.views| == |st'.views| && st'.errors == []
    requires forall k :: 0 <= k < |st.views| && k != i ==> st'.views[k] == st.views[k]
    requires st'.views[i].conf == st.views[i].conf && st'.views[i].errors == st.views[i].errors
    requires AllSendable(N, st'.views[i])
    ensures Orderly(N, st')
  {
  }

  lemma NoEarlierRequests(N: nat, st: TxState, i: nat, h: nat)
    requires NextInLine(st, i, h) && AllOf(N, st.views)
    ensures forall k :: 0 <= k < i ==> RequestsOf(N, st.views[k]) == []
  {
  }

  /** The event of the first action, and then those of the others. */
  lemma OneMoreArrives(N: nat, st: TxState, rooms: seq<nat>, rx: Receiver.State, event: Receiver.Event)
    requires ValidState(st) && rooms != []
    ensures ValidState(TxNext(N, st, rooms[0]).0)
    ensures var (st1, p1) := TxNext(N, st, rooms[0]);
            Receiver.Run(N, rx, Line(p1)) == (Receiver.Idle, [event]) ==>
              Receiver.Run(N, rx, Line(TxRun(N, st, rooms).1)).1
              == [event] + Receiver.Run(N, Receiver.Idle, Line(TxRun(N, st1, rooms[1..]).1)).1
  {
    TxNextKeepsValid(N, st, rooms[0]);
    var (st1, p1) := TxNext(N, st, rooms[0]);
    var p2 := TxRun(N, st1, rooms[1..]).1;
    LineOfBoth(p1, p2);
    Receiver.RunConcat(N, rx, Line(p1), Line(p2));
  }

  /** With no error pending and room for every frame, each action delivers one message, and after as
      many actions as there are messages a receiver on the other end was handed the requests of all of
      them, in order, and nothing else. */
  lemma {:induction false} EveryMessageArrives(N: nat, st: TxState, rooms: seq<nat>, rx: Receiver.State)
    requires Orderly(N, st) && forall k :: 0 <= k < |rooms| ==> rooms[k] >= N
    ensures |rooms| >= |AllRequests(N, st.views)| ==>
              AllCarried(Receiver.Run(N, rx, Line(TxRun(N, st, rooms).1)).1, AllRequests(N, st.views))
    decreases rooms
  {
    if FirstMessage(st.views) == |st.views| {
      NoRequests(N, st.views);
      NothingIsWritten(N, st, rooms);
    } else {
      var event := TakeOne(N, st, if rooms == [] then N else rooms[0], rx);
      if |rooms| >= |AllRequests(N, st.views)| {
        var st1 := TxNext(N, st, rooms[0]).0;
        EveryMessageArrives(N, st1, rooms[1..], Receiver.Idle);
        OneMoreArrives(N, st, rooms, rx, event);
        CarriedInFront(event, Receiver.Run(N, Receiver.Idle, Line(TxRun(N, st1, rooms[1..]).1)).1,
                       AllRequests(N, st.views));
      }
    }
  }

  lemma TakeOne(N: nat, st: TxState, room: nat, rx: Receiver.State) returns (event: Receiver.Event)
    requires Orderly(N, st) && FirstMessage(st.views) < |st.views| && room >= N
    ensures Orderly(N, TxNext(N, st, room).0)
    ensures Receiver.Run(N, rx, Line(TxNext(N, st, room).1)) == (Receiver.Idle, [event])
    ensures |AllRequests(N, st.views)| > 0 && Carries(event, AllRequests(N, st.views)[0])
    ensures AllRequests(N, TxNext(N, st, room).0.views) == AllRequests(N, st.views)[1..]
  {
    var i := FirstMessage(st.views);
    var h := st.views[i].outgoing.value[0];
    FoundIsNextInLine(N, st, i, h);
    assert SendsPlain(N, st.views[i].conf, st.views[i].pool.heap[h]);
    event := FirstMessageArrives(N, st, room, rx, i, h);
    OrderlyStep(N, st, room, i, h);
  }

  lemma FoundIsNextInLine(N: nat, st: TxState, i: nat, h: nat)
    requires Orderly(N, st) && i == FirstMessage(st.views) < |st.views| && h == st.views[i].outgoing.value[0]
    ensures NextInLine(st, i, h)
  {
  }

  lemma {:induction false} NothingIsWritten(N: nat, st: TxState, rooms: seq<nat>)
    requires ValidState(st) && st.errors == [] && FirstMessage(st.views) == |st.views|
    requires forall k :: 0 <= k < |st.views| ==> QueueLength(st.views[k].errors) == 0
    ensures TxRun(N, st, rooms).1 == []
    decreases rooms
  {
    if rooms != [] {
      NothingIsWritten(N, st, rooms[1..]);
    }
  }

  // ------------------------------------------------------------------ errors

  /** The body of a report of the dispatcher. */
  function Report(code: int): string {
    "DISPATCHER,ERROR," + CText.SignedDecimal(code)
  }

  function Reports(codes: seq<int>): seq<Receiver.Event> {
    if codes == [] then [] else [Receiver.Dispatch(Report(codes[0]))] + Reports(codes[1..])
  }

  lemma ReportArrives(N: nat, st: TxState, room: nat, rx: Receiver.State)
    requires ValidState(st) && st.errors != [] && |Report(st.errors[0])| + 6 < N
    ensures TxNext(N, st, room).0 == st.(errors := st.errors[1..])
    ensures Receiver.Run(N, rx, Line(TxNext(N, st, room).1))
            == (Receiver.Idle, [Receiver.Dispatch(Report(st.errors[0]))])
  {
    var body := Report(st.errors[0]);
    assert ErrorBody("DISPATCHER", st.errors[0]) == body;
    DispatcherIsClean();
    ErrorIsDeliverable(N, "DISPATCHER", st.errors[0]);
    LineOfOne(Whole(body));
    FrameArrives(N, rx, body, body);
  }

  lemma DispatcherIsClean()
    ensures Clean("DISPATCHER")
  {
  }

  /** The reports of the dispatcher go out before anything else, one for each action, and arrive in
      the order in which they were scheduled. */
  lemma {:induction false} ReportsArriveInOrder(N: nat, st: TxState, rooms: seq<nat>, rx: Receiver.State)
    requires ValidState(st) && |rooms| == |st.errors|
    requires forall k :: 0 <= k < |st.errors| ==> |Report(st.errors[k])| + 6 < N
    ensures TxRun(N, st, rooms).0 == st.(errors := [])
    ensures Receiver.Run(N, rx, Line(TxRun(N, st, rooms).1)).1 == Reports(st.errors)
    decreases rooms
  {
    if rooms != [] {
      var (st1, p1) := TxNext(N, st, rooms[0]);
      ReportArrives(N, st, rooms[0], rx);
      ReportsArriveInOrder(N, st1, rooms[1..], Receiver.Idle);
      OneMoreArrives(N, st, rooms, rx, Receiver.Dispatch(Report(st.errors[0])));
    }
  }

  /** Once the dispatcher has none, the first subsystem with a report has its first one sent, under its
      own name. */
  lemma SubsystemReportArrives(N: nat, st: TxState, room: nat, rx: Receiver.State, i: nat)
    requires ValidState(st) && st.errors == [] && i < |st.views| && QueueLength(st.views[i].errors) > 0
    requires forall k :: 0 <= k < i ==> QueueLength(st.views[k].errors) == 0
    requires var v := st.views[i];
             Clean(v.conf.name) && |v.conf.name + ",ERROR," + CText.SignedDecimal(v.errors.value[0])| + 6 < N
    ensures var v := st.views[i];
            && Receiver.Run(N, rx, Line(TxNext(N, st, room).1))
               == (Receiver.Idle, [Receiver.Dispatch(v.conf.name + ",ERROR," + CText.SignedDecimal(v.errors.value[0]))])
            && TxNext(N, st, room).0 == st.(views := st.views[i := v.(errors := Some(v.errors.value[1..]))])
  {
    var v := st.views[i];
    assert FirstError(st.views) == i;
    var body := ErrorBody(v.conf.name, v.errors.value[0]);
    ErrorIsDeliverable(N, v.conf.name, v.errors.value[0]);
    LineOfOne(Whole(body));
    FrameArrives(N, rx, body, body);
  }

  /** An error that is scheduled while there is room joins the end of the queue; when there is none it
      is dropped, and the queue stays as it is. */
  lemma ScheduledWhen(codes: seq<int>, code: int)
    ensures if |codes| < 10 then Scheduled(codes, code) == codes + [code] else Scheduled(codes, code) == codes
  {
  }

  // ------------------------------------------------- what becomes of a received body

  /** The queue of the dispatcher's errors with one more report, if it fits. */
  predicate Reported(errors: seq<int>, errors': seq<int>, code: int) {
    errors' == if |errors| < 10 then errors + [code] else errors
  }

  /** A bad frame is reported and does nothing else. */
  lemma BadFrameIsReported(event: Receiver.Event, before: seq<View>, after: seq<View>,
                           errors: seq<int>, errors': seq<int>)
    requires RxWorker.Handled(event, before, after, errors, errors') && !event.Dispatch?
    ensures after == before
    ensures Reported(errors, errors', if event.TooLong? then -11 else -1)
  {
  }

  /** h was a free header and is now the last message in the queue, of the given type, with the given id
      and payload, in a slot that was free; no other message and nothing else about the subsystem has
      changed. */
  ghost predicate QueuedAs(v: View, v': View, h: nat, t: nat, id: nat, payload: Payload) {
    && t < |v.conf.slotClasses| && h in v.pool.headers && h in v'.pool.heap
    && v' == v.(incoming := v.incoming + [h], pool := v'.pool)
    && v'.pool.headers == v.pool.headers - {h}
    && var hdr, cls := v'.pool.heap[h], v.conf.slotClasses[t];
       && hdr.msgType == t && hdr.transactionId == id && hdr.payload == payload
       && hdr.slot in v.pool.Slots(cls)
       && v'.pool.small == (if cls == SmallSlot then v.pool.small - {hdr.slot} else v.pool.small)
       && v'.pool.plan == (if cls == PlanSlot then v.pool.plan - {hdr.slot} else v.pool.plan)
       && v'.pool.heap == v.pool.heap[h := hdr]
  }

  /** One more message in the i-th subsystem, and nothing else. */
  ghost predicate OneMore(before: seq<View>, after: seq<View>, i: nat, t: nat, id: nat, payload: Payload) {
    && i < |before| == |after| && (forall k :: 0 <= k < |before| && k != i ==> after[k] == before[k])
    && exists h: nat :: QueuedAs(before[i], after[i], h, t, id, payload)
  }

  /** The request addresses the t-th handler of the i-th subsystem, which can take it. */
  ghost predicate Addresses(views: seq<View>, r: Request, i: nat, t: nat, payload: Payload) {
    && r.Request? && FirstNamed(Names(views), r.subsystem, i) && FirstNamed(HandlerNames(views[i].conf), r.message, t)
    && ValidView(views[i]) && Accepts(views[i], t, r.rest, payload)
  }

  /** An accepted request becomes one message, with its id and the payload that was parsed. */
  lemma AcceptedIsQueued(r: Request, before: seq<View>, after: seq<View>, errors: seq<int>, errors': seq<int>,
                         i: nat, t: nat, payload: Payload)
    ensures RxWorker.Processed(r, before, after, errors, errors') && Addresses(before, r, i, t, payload) ==>
              OneMore(before, after, i, t, r.id, payload) && errors' == errors
  {
    if RxWorker.Processed(r, before, after, errors, errors') && Addresses(before, r, i, t, payload) {
      EnqueuedIff(before, r, i, t, r.id, payload);
      var h, s := WitnessOfEnqueued(before[i], after[i], t, r.id, payload);
      assert QueuedAs(before[i], after[i], h, t, r.id, payload);
    }
  }

  lemma WitnessOfEnqueued(before: View, after: View, t: nat, id: nat, payload: Payload) returns (h: nat, s: Slot)
    requires ValidView(before) && t < |before.conf.slotClasses| && Enqueued(before, after, t, id, payload)
    ensures h in before.pool.headers && s in before.pool.Slots(before.conf.slotClasses[t])
    ensures after == before.(
              pool := before.pool.AllocAt(h, before.conf.slotClasses[t], s, t)
                        .(heap := before.pool.heap[h := Header(t, id, s, payload)]),
              incoming := before.incoming + [h])
  {
    h, s :| && h in before.pool.headers && s in before.pool.Slots(before.conf.slotClasses[t])
            && after == before.(
                 pool := before.pool.AllocAt(h, before.conf.slotClasses[t], s, t)
                           .(heap := before.pool.heap[h := Header(t, id, s, payload)]),
                 incoming := before.incoming + [h]);
  }

  /** A refused request leaves one report; all queues and all free headers and slots are as before. */
  lemma RefusedLeavesNothing(r: Request, before: seq<View>, after: seq<View>, errors: seq<int>, errors': seq<int>)
    requires forall k :: 0 <= k < |before| ==> ValidView(before[k])
    ensures RxWorker.Processed(r, before, after, errors, errors') && Decide(before, r).Refuse? ==>
              && Reported(errors, errors', Decide(before, r).code) && |after| == |before|
              && forall k :: 0 <= k < |before| ==> SameBut(before[k], after[k])
  {
    if RxWorker.Processed(r, before, after, errors, errors') && Decide(before, r).Refuse? {
      assert forall k :: 0 <= k < |before| ==> Untouched(before[k], after[k]);
    }
  }

  ghost predicate SameBut(v: View, v': View) {
    && v'.conf == v.conf && v'.incoming == v.incoming && v'.outgoing == v.outgoing && v'.errors == v.errors
    && v'.pool.headers == v.pool.headers && v'.pool.small == v.pool.small && v'.pool.plan == v.pool.plan
    && forall h :: h in v.pool.heap && h !in v.pool.headers ==> h in v'.pool.heap && v'.pool.heap[h] == v.pool.heap[h]
  }

  /** From a queue on one board to a queue on another: the message whose turn it is is written, read
      and queued under the same id, as the message of the same name, with the payload that the
      receiving parser reads from the text the sending serializer printed. */
  lemma MessageCrossesTheLine(N: nat, st: TxState, room: nat, rx: Receiver.State, i: nat, h: nat,
                              before: seq<View>, after: seq<View>, errors: seq<int>, errors': seq<int>,
                              event: Receiver.Event, j: nat, t: nat, payload: Payload)
    requires NextInLine(st, i, h) && CleanState(st)
    requires SendsPlain(N, st.views[i].conf, st.views[i].pool.heap[h])
    requires room >= FrameLength(N, st.views[i].conf, st.views[i].pool.heap[h])
    ensures var r := RequestFor(N, st.views[i].conf, st.views[i].pool.heap[h]);
            && Receiver.Run(N, rx, Line(TxNext(N, st, room).1)).1 == [event]
            && RxWorker.Handled(event, before, after, errors, errors')
            && Addresses(before, r, j, t, payload)
            ==> OneMore(before, after, j, t, st.views[i].pool.heap[h].transactionId, payload) && errors' == errors
  {
    var arrived := FirstMessageArrives(N, st, room, rx, i, h);
    var r := RequestFor(N, st.views[i].conf, st.views[i].pool.heap[h]);
    AcceptedIsQueued(r, before, after, errors, errors', j, t, payload);
  }
}
