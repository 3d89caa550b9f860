/** The receiving half of the wire protocol as a machine that takes one character at a time
    (src/message_dispatcher.c, assemble_incoming_message), and the whole-stream specification it
    refines. `N` is BSP_MAX_MESSAGE_LENGTH. */
module Receiver {

  import opened Options
  import CText
  import Checksum

  /** What the receiver makes of a frame: a body for the message processing, or an error code. */
  datatype Event = Dispatch(body: string) | ChecksumError | TooLong

  /** `held` is incoming_msg_buf[..pos_in_buf]; Idle is msg_is_incoming == false. */
  datatype State = Idle | Collecting(held: string)

  // ------------------------------------------------------------ the machine

  /** The first `length` characters are followed by nothing else in a frame: they reach offset 10
      and close with CRLF. */
  predicate EndsAt(s: string, length: nat) {
    10 <= length <= |s| && s[length - 2] == '\r' && s[length - 1] == '\n'
  }

  /** The checksum field is the two characters in front of the CRLF, read by strtoul. */
  predicate FieldMatches(field: string, sum: bv8)
    requires |field| == 2
  {
    var n := CText.Strtoul(CText.CStr(field), 16);
    n.end == 2 && n.value == sum as int
  }

  /** The verdict on a complete frame (without its '$'). */
  function Judge(frame: string): Event
    requires |frame| >= 10
  {
    var l := |frame|;
    if frame[l - 5] != '*' || !FieldMatches(frame[l - 4..l - 2], Checksum.Sum(frame[..l - 5]))
    then ChecksumError
    else Dispatch(frame[..l - 5])
  }

  function Step(N: nat, st: State, ch: char): (r: (State, seq<Event>)) {
    if ch == '$' then (Collecting([]), [])
    else if st.Idle? then (st, [])
    else
      var held := st.held + [ch];
      if EndsAt(held, |held|) then (Idle, [Judge(held)])
      else if |held| >= N then (Idle, [TooLong])
      else (Collecting(held), [])
  }

  function Run(N: nat, st: State, s: string): (State, seq<Event>)
    decreases s
  {
    if s == [] then (st, [])
    else
      var (st1, e1) := Step(N, st, s[0]);
      var (st2, e2) := Run(N, st1, s[1..]);
      (st2, e1 + e2)
  }

  lemma RunFirst(N: nat, st: State, ch: char, rest: string)
    ensures var (st1, e1) := Step(N, st, ch);
            var (st2, e2) := Run(N, st1, rest);
            && Run(N, st, [ch] + rest) == (st2, e1 + e2)
            && (e1 == [] ==> e1 + e2 == e2) && (e2 == [] ==> e1 + e2 == e1)
  {
    assert ([ch] + rest)[1..] == rest;
  }

  lemma {:induction false} RunConcat(N: nat, st: State, s: string, t: string)
    ensures var (st1, e1) := Run(N, st, s);
            var (st2, e2) := Run(N, st1, t);
            Run(N, st, s + t) == (st2, e1 + e2)
    decreases s
  {
    if s == [] {
      assert s + t == t;
      assert [] + Run(N, st, t).1 == Run(N, st, t).1;
    } else {
      assert (s + t)[1..] == s[1..] + t;
      var (st0, e0) := Step(N, st, s[0]);
      RunConcat(N, st0, s[1..], t);
      var (st1, e1) := Run(N, st0, s[1..]);
      var e2 := Run(N, st1, t).1;
      assert e0 + (e1 + e2) == e0 + e1 + e2;
    }
  }

  // ------------------------------------------- the whole-stream specification

  /** `length` is where the first frame inside a segment closes. */
  ghost predicate FirstEnd(N: nat, segment: string, length: nat) {
    length <= N && EndsAt(segment, length) && forall k :: 0 <= k < length ==> !EndsAt(segment, k)
  }

  /** What the text between two '$' amounts to: at most one event, whatever follows in it. */
  ghost function SegmentEvents(N: nat, segment: string): seq<Event> {
    if exists length: nat :: FirstEnd(N, segment, length) then
      var length: nat :| FirstEnd(N, segment, length);
      [Judge(segment[..length])]
    else if |segment| >= N then [TooLong]
    else []
  }

  /** The stream cut at each '$'; the first part is what precedes the first '$'. */
  function Segments(s: string): (parts: seq<string>)
    ensures parts != []
  {
    if s == [] then [[]]
    else
      var parts := Segments(s[1..]);
      if s[0] == '$' then [[]] + parts else [[s[0]] + parts[0]] + parts[1..]
  }

  ghost function AllEvents(N: nat, segments: seq<string>): seq<Event> {
    if segments == [] then []
    else SegmentEvents(N, segments[0]) + AllEvents(N, segments[1..])
  }

  /** What a receiver in state `st` owes to the rest of the stream. */
  ghost function StreamEvents(N: nat, st: State, s: string): seq<Event> {
    var parts := Segments(s);
    (match st case Idle => [] case Collecting(held) => SegmentEvents(N, held + parts[0]))
    + AllEvents(N, parts[1..])
  }

  /** What holds of the receiver between two calls; in particular pos_in_buf < N. */
  ghost predicate Reachable(N: nat, st: State) {
    st.Collecting? ==>
      && |st.held| < N
      && (forall k :: 0 <= k < |st.held| ==> st.held[k] != '$')
      && (forall k :: 0 <= k <= |st.held| ==> !EndsAt(st.held, k))
  }

  lemma StepKeepsReachable(N: nat, st: State, ch: char)
    requires N > 0 && Reachable(N, st)
    ensures Reachable(N, Step(N, st, ch).0)
  {
    if st.Collecting? {
      var held := st.held + [ch];
      assert forall k :: 0 <= k < |held| ==> EndsAt(held, k) == EndsAt(st.held, k);
    }
  }

  lemma {:induction false} RunKeepsReachable(N: nat, st: State, s: string)
    requires N > 0 && Reachable(N, st)
    ensures Reachable(N, Run(N, st, s).0)
    decreases s
  {
    if s != [] {
      StepKeepsReachable(N, st, s[0]);
      RunKeepsReachable(N, Step(N, st, s[0]).0, s[1..]);
    }
  }

  lemma SegmentEventsOf(N: nat, segment: string, length: nat)
    requires FirstEnd(N, segment, length)
    ensures SegmentEvents(N, segment) == [Judge(segment[..length])]
  {
    forall other | FirstEnd(N, segment, other)
      ensures other == length
    {
    }
  }

  /** The machine refines the specification: on every stream, from every reachable state. */
  lemma {:induction false} RunRefinesStream(N: nat, st: State, s: string)
    requires N > 0 && Reachable(N, st)
    ensures Run(N, st, s).1 == StreamEvents(N, st, s)
    decreases s
  {
    if st.Collecting? {
      NothingYet(N, st.held);
    }
    if s != [] {
      var (st1, e1) := Step(N, st, s[0]);
      StepKeepsReachable(N, st, s[0]);
      RunRefinesStream(N, st1, s[1..]);
      assert s == [s[0]] + s[1..];
      StepRefines(N, st, s[0], s[1..]);
    }
  }

  lemma NothingYet(N: nat, held: string)
    requires Reachable(N, Collecting(held))
    ensures held + [] == held && SegmentEvents(N, held) == []
  {
  }

  lemma StepRefines(N: nat, st: State, ch: char, rest: string)
    requires N > 0 && Reachable(N, st)
    ensures StreamEvents(N, st, [ch] + rest)
            == Step(N, st, ch).1 + StreamEvents(N, Step(N, st, ch).0, rest)
  {
    var s := [ch] + rest;
    assert s[1..] == rest;
    var parts := Segments(rest);
    if ch == '$' {
      assert Segments(s)[1..] == parts;
      assert Segments(s)[0] == [];
      assert AllEvents(N, parts) == SegmentEvents(N, [] + parts[0]) + AllEvents(N, parts[1..]) by {
        assert [] + parts[0] == parts[0];
      }
      if st.Collecting? {
        NothingYet(N, st.held);
      }
    } else {
      assert Segments(s) == [[ch] + parts[0]] + parts[1..];
      assert Segments(s)[1..] == parts[1..];
      if st.Collecting? {
        CharacterRefines(N, st.held, ch, parts[0]);
        assert st.held + ([ch] + parts[0]) == st.held + [ch] + parts[0];
      }
    }
  }

  /** One ordinary character inside a segment. */
  lemma CharacterRefines(N: nat, held: string, ch: char, rest: string)
    requires Reachable(N, Collecting(held)) && ch != '$'
    ensures var segment := held + [ch] + rest;
            var (st, events) := Step(N, Collecting(held), ch);
            SegmentEvents(N, segment)
            == (match st case Idle => events case Collecting(h) => SegmentEvents(N, h + rest))
  {
    var h := held + [ch];
    var segment := h + rest;
    assert forall k :: 0 <= k <= |held| ==> EndsAt(segment, k) == EndsAt(held, k);
    assert EndsAt(segment, |h|) == EndsAt(h, |h|);
    if EndsAt(h, |h|) {
      assert FirstEnd(N, segment, |h|);
      SegmentEventsOf(N, segment, |h|);
      assert segment[..|h|] == h;
    }
  }
}
