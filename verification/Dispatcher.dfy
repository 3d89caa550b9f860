/** The message dispatcher between the wire and the subsystems: routing of received bodies, and
    the transmit side (src/message_dispatcher.c). */
module Dispatcher {

  import opened Options
  import opened Pools
  import CText
  import Checksum
  import Receiver

  const RX_CHECKSUM_ERROR := -1
  const MESSAGE_PARSING_ERROR := -2
  const MESSAGE_FORMATTING_ERROR := -3
  const MEM_ALLOC_ERROR := -4
  const MESSAGE_ROUTING_ERROR := -5
  const UNKNOWN_SUBSYSTEM_ERROR := -6
  const UNKNOWN_MESSAGE_TYPE_ERROR := -7
  const MISSING_MESSAGE_HANDLER_ERROR := -8
  const TX_BUFFER_FULL := -9
  const MESSAGE_TOO_LONG_ERROR := -11

  const MAX_NUM_COMM_SUBSYSTEMS: nat := 5
  const MAX_DISPATCHER_ERROR_MESSAGES: nat := 10

  /** parse is NULL or takes the text behind save_ptr and fails or fills the data slot; serialize
      is NULL or prints the data slot into at most the given number of characters, None being -1. */
  datatype Handler = Handler(
    name: string,
    parse: Option<string -> Option<Payload>>,
    serialize: Option<(Payload, nat) -> Option<string>>)

  datatype Conf = Conf(name: string, handlers: seq<Handler>, slotClasses: seq<SlotClass>,
                       incomingCapacity: nat)

  /** Everything about a registered subsystem that the dispatcher touches. None is a NULL queue. */
  datatype View = View(conf: Conf, pool: PoolState, incoming: seq<nat>,
                       outgoing: Option<seq<nat>>, errors: Option<seq<int>>)

  ghost predicate ValidView(v: View) {
    && |v.conf.handlers| <= |v.conf.slotClasses|
    && (v.outgoing.Some? ==>
          forall k :: 0 <= k < |v.outgoing.value| ==>
            && v.outgoing.value[k] in v.pool.heap
            && v.pool.heap[v.outgoing.value[k]].msgType < |v.conf.slotClasses|)
  }

  class Subsystem {
    const conf: Conf
    var pool: PoolState
    var incoming: seq<nat>
    var outgoing: Option<seq<nat>>
    var errors: Option<seq<int>>

    constructor (conf: Conf, pool: PoolState, outgoing: Option<seq<nat>>, errors: Option<seq<int>>)
      ensures Look() == View(conf, pool, [], outgoing, errors)
    {
      this.conf, this.pool, this.incoming := conf, pool, [];
      this.outgoing, this.errors := outgoing, errors;
    }

    function Look(): View
      reads this
    {
      View(conf, pool, incoming, outgoing, errors)
    }

    /** conf->alloc_message: a header, then a data slot of the class of the type; the header goes
        back when there is no slot. */
    method AllocMessage(t: nat) returns (h: Option<nat>, ghost s: Slot)
      requires t < |conf.slotClasses|
      modifies this`pool
      ensures h.None? <==> !old(pool).CanAlloc(conf.slotClasses[t])
      ensures match h
              case None => pool == old(pool)
              case Some(header) =>
                && header in old(pool).headers && s in old(pool).Slots(conf.slotClasses[t])
                && pool == old(pool).AllocAt(header, conf.slotClasses[t], s, t)
    {
      h, s := None, Slot(SmallSlot, 0);
      if pool.headers == {} {
        return;
      }
      ghost var p := pool;
      var header :| header in pool.headers;
      pool := pool.TakeHeader(header);
      var c := conf.slotClasses[t];
      if pool.Slots(c) == {} {
        pool := pool.GiveHeader(header);
        assert pool == p;
        return;
      }
      var slot :| slot in pool.Slots(c);
      pool := pool.TakeSlot(c, slot, header, t);
      assert pool == p.AllocAt(header, c, slot, t);
      h, s := Some(header), slot;
    }

    /** conf->free_message: the data slot, then the header. */
    method FreeMessage(h: nat)
      requires h in pool.heap && pool.heap[h].msgType < |conf.slotClasses|
      modifies this`pool
      ensures pool == old(pool).FreeAt(h, conf.slotClasses[old(pool).heap[h].msgType])
    {
      var hdr := pool.heap[h];
      pool := pool.GiveSlot(conf.slotClasses[hdr.msgType], hdr.slot);
      pool := pool.GiveHeader(h);
    }
  }

  /** The dispatcher's own error queue, written by both workers. */
  class ErrorQueue {
    var items: seq<int>

    constructor ()
      ensures items == []
    {
      items := [];
    }

    /** schedule_err_message: a full queue drops the report. */
    method Schedule(code: int)
      modifies this
      ensures items == Scheduled(old(items), code)
    {
      if |items| < MAX_DISPATCHER_ERROR_MESSAGES {
        items := items + [code];
      }
    }
  }

  function Scheduled(items: seq<int>, code: int): seq<int> {
    if |items| < MAX_DISPATCHER_ERROR_MESSAGES then items + [code] else items
  }

  class Registry {
    var subsystems: seq<Subsystem>

    constructor ()
      ensures subsystems == []
    {
      subsystems := [];
    }

    /** No conf is registered twice. */
    ghost predicate Valid()
      reads this, subsystems
    {
      && (forall i, j :: 0 <= i < j < |subsystems| ==> subsystems[i] != subsystems[j])
      && (forall i :: 0 <= i < |subsystems| ==> ValidView(subsystems[i].Look()))
    }

    ghost function Views(): (vs: seq<View>)
      reads this, subsystems
      ensures |vs| == |subsystems|
      ensures forall i :: 0 <= i < |vs| ==> vs[i] == subsystems[i].Look()
    {
      seq(|subsystems|, i requires 0 <= i < |subsystems| reads this, subsystems =>
        subsystems[i].Look())
    }

    /** dispatcher_register_subsystem */
    method Register(conf: Subsystem) returns (ok: bool)
      requires Valid() && conf !in subsystems && ValidView(conf.Look())
      modifies this
      ensures Valid() && ok == (old(|subsystems|) < MAX_NUM_COMM_SUBSYSTEMS)
      ensures Views() == old(Views()) + (if ok then [conf.Look()] else [])
    {
      ok := |subsystems| < MAX_NUM_COMM_SUBSYSTEMS;
      if ok {
        subsystems := subsystems + [conf];
      }
    }
  }

  // ------------------------------------------------ what a body asks for

  datatype Request = Malformed | Request(id: nat, subsystem: string, message: string, rest: string)

  predicate HasToken(body: string) {
    CText.NextToken(body).Some?
  }

  /** The three leading tokens of a body; the payload parser gets what follows the third. */
  function ParseRequest(body: string): Request
    requires HasToken(body)
  {
    var id := CText.NextToken(body).value;
    var n := CText.Strtoul(id.text, 10);
    if n.outOfRange || n.end == 0 || n.end != |id.text| then Malformed
    else
      match CText.NextToken(id.rest)
      case None => Malformed
      case Some(subsystem) =>
        match CText.NextToken(subsystem.rest)
        case None => Malformed
        case Some(message) => Request(n.value, subsystem.text, message.text, message.rest)
  }

  /** The text is an id: a decimal number of 32 bits with its digits from k on, and nothing behind it. */
  ghost predicate IdFrom(text: string, k: nat) {
    CText.NumberFrom(text, k) && CText.DigitsValue(text[k..], 10) <= CText.ULONG_MAX
  }

  /** A body is malformed exactly when its first token is not such a number, or when it has fewer than
      three tokens. */
  lemma MalformedIff(body: string)
    requires HasToken(body)
    ensures var id := CText.NextToken(body).value;
            var second := CText.NextToken(id.rest);
            ParseRequest(body).Malformed? <==>
              || (forall k: nat :: !IdFrom(id.text, k))
              || second.None? || CText.NextToken(second.value.rest).None?
  {
    IdIff(CText.NextToken(body).value.text);
  }

  /** The test that process_incoming_message makes on its first token. */
  lemma IdIff(text: string)
    requires text != []
    ensures var n := CText.Strtoul(text, 10);
            (n.outOfRange || n.end == 0 || n.end != |text|) <==> forall k: nat :: !IdFrom(text, k)
  {
    if k: nat :| CText.NumberFrom(text, k) {
      CText.StrtoulOfNumber(text, k);
      forall j: nat | CText.NumberFrom(text, j)
        ensures j == k
      {
        CText.OneStart(text, j, k);
      }
      assert IdFrom(text, k) <==> CText.DigitsValue(text[k..], 10) <= CText.ULONG_MAX;
    } else {
      CText.StrtoulOfOther(text);
    }
  }

  /** Otherwise its id is the value of that number, negated in 32 bits behind a minus sign. */
  lemma RequestedId(body: string, k: nat)
    requires HasToken(body)
    ensures var text := CText.NextToken(body).value.text;
            ParseRequest(body).Request? && IdFrom(text, k) ==>
              var v := CText.DigitsValue(text[k..], 10);
              ParseRequest(body).id == if k > 0 && text[k - 1] == '-' && v > 0 then CText.ULONG_MAX + 1 - v else v
  {
    var text := CText.NextToken(body).value.text;
    if IdFrom(text, k) {
      CText.StrtoulOfNumber(text, k);
    }
  }

  /** The first position of a name, or the length when it does not occur. */
  function FindFirst(names: seq<string>, name: string): (i: nat)
    ensures i <= |names|
    ensures i < |names| ==> names[i] == name
    ensures forall k :: 0 <= k < i ==> names[k] != name
  {
    if names == [] || names[0] == name then 0 else 1 + FindFirst(names[1..], name)
  }

  lemma FindFirstIs(names: seq<string>, name: string, i: nat)
    requires i <= |names| && (i < |names| ==> names[i] == name)
    requires forall k :: 0 <= k < i ==> names[k] != name
    ensures FindFirst(names, name) == i
  {
  }

  function HandlerNames(conf: Conf): (names: seq<string>)
    ensures |names| == |conf.handlers|
    ensures forall k :: 0 <= k < |names| ==> names[k] == conf.handlers[k].name
  {
    seq(|conf.handlers|, i requires 0 <= i < |conf.handlers| => conf.handlers[i].name)
  }

  function Names(views: seq<View>): (names: seq<string>)
    ensures |names| == |views|
    ensures forall k :: 0 <= k < |names| ==> names[k] == views[k].conf.name
  {
    seq(|views|, i requires 0 <= i < |views| => views[i].conf.name)
  }

  datatype Verdict = Refuse(code: int) | Enqueue(sub: nat, msgType: nat, id: nat, payload: Payload)

  /** What must become of a request, given the registered subsystems. */
  ghost function Decide(views: seq<View>, r: Request): Verdict
    requires forall i :: 0 <= i < |views| ==> ValidView(views[i])
  {
    if r.Malformed? then Refuse(MESSAGE_PARSING_ERROR)
    else
      var i := FindFirst(Names(views), r.subsystem);
      if i == |views| then Refuse(UNKNOWN_SUBSYSTEM_ERROR)
      else DecideFor(views[i], i, r)
  }

  ghost function DecideFor(v: View, i: nat, r: Request): Verdict
    requires ValidView(v) && r.Request?
  {
    var t := FindFirst(HandlerNames(v.conf), r.message);
    if t == |v.conf.handlers| then Refuse(UNKNOWN_MESSAGE_TYPE_ERROR) else DecideWith(v, i, t, r)
  }

  ghost function DecideWith(v: View, i: nat, t: nat, r: Request): Verdict
    requires ValidView(v) && r.Request? && t < |v.conf.handlers|
  {
    if v.conf.handlers[t].parse.None? then Refuse(MISSING_MESSAGE_HANDLER_ERROR)
    else if !v.pool.CanAlloc(v.conf.slotClasses[t]) then Refuse(MEM_ALLOC_ERROR)
    else
      match v.conf.handlers[t].parse.value(r.rest)
      case None => Refuse(MESSAGE_PARSING_ERROR)
      case Some(payload) =>
        if |v.incoming| >= v.conf.incomingCapacity then Refuse(MESSAGE_ROUTING_ERROR)
        else Enqueue(i, t, r.id, payload)
  }

  /** The subsystem after a message of the given kind was put into its queue. */
  ghost predicate Enqueued(before: View, after: View, msgType: nat, id: nat, payload: Payload)
    requires ValidView(before) && msgType < |before.conf.slotClasses|
  {
    exists h, s ::
      && h in before.pool.headers && s in before.pool.Slots(before.conf.slotClasses[msgType])
      && after == before.(
           pool := before.pool.AllocAt(h, before.conf.slotClasses[msgType], s, msgType)
                     .(heap := before.pool.heap[h := Header(msgType, id, s, payload)]),
           incoming := before.incoming + [h])
  }

  /** Nothing a subsystem could notice has changed. */
  ghost predicate Untouched(before: View, after: View) {
    after == before.(pool := after.pool) && after.pool.SameResources(before.pool)
  }

  /** The one outcome of a request: an error report and nothing else, or one message more. */
  ghost predicate Outcome(v: Verdict, before: seq<View>, after: seq<View>, errors: seq<int>, errors': seq<int>)
    requires forall i :: 0 <= i < |before| ==> ValidView(before[i])
  {
    |after| == |before| &&
    match v
    case Refuse(code) =>
      && errors' == Scheduled(errors, code)
      && forall i :: 0 <= i < |before| ==> Untouched(before[i], after[i])
    case Enqueue(sub, t, id, payload) =>
      && errors' == errors
      && sub < |before| && t < |before[sub].conf.slotClasses|
      && Enqueued(before[sub], after[sub], t, id, payload)
      && forall i :: 0 <= i < |before| && i != sub ==> after[i] == before[i]
  }
}
