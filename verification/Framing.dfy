/** The frames the transmitter writes (src/message_dispatcher.c, process_outgoing_message and
    process_outgoing_err_message) against the receiver that reads them. */
module Framing {

  import opened Options
  import opened Receiver
  import CText
  import Checksum

  /** The tail of a frame: "*%02X\r\n". */
  function Trailer(body: string): (s: string)
    ensures |s| == 5
  {
    "*" + Checksum.Hex2(Checksum.Sum(body)) + "\r\n"
  }

  function Frame(body: string): (s: string)
    ensures |s| == |body| + 6
  {
    "$" + body + Trailer(body)
  }

  /** The bodies a receiver with an N-character buffer can be handed. A CRLF is harmless as long as
      it closes before offset 10. */
  ghost predicate Deliverable(N: nat, body: string) {
    && 5 <= |body| <= N - 5
    && (forall k :: 0 <= k < |body| ==> body[k] != '$')
    && (forall k :: 0 <= k <= |body| ==> !EndsAt(body, k))
  }

  // -------------------------------------------------------------- one frame

  lemma HexDigitValue(d: nat)
    requires d < 16
    ensures CText.Digit(Checksum.HexDigit(d)) == d
    ensures !CText.IsSpace(Checksum.HexDigit(d)) && Checksum.HexDigit(d) !in "+-$\n\r"
    ensures Checksum.HexDigit(d) != CText.NUL
  {
  }

  /** The two characters of a checksum field spell the number. */
  ghost predicate FieldIs(field: string, sum: int)
    requires |field| == 2
  {
    var a, b := CText.Digit(field[0]), CText.Digit(field[1]);
    b < 16 && (if a < 16 then a * 16 + b == sum
               else if field[0] == '-' then b == 0 && sum == 0
               else (CText.IsSpace(field[0]) || field[0] == '+') && b == sum)
  }

  /** What strtoul(.., 16) makes of a two-character field: exactly the two-digit numbers, and a
      single digit behind a sign or a white-space character; "-" negates. */
  lemma FieldValue(field: string, sum: bv8)
    requires |field| == 2
    ensures FieldMatches(field, sum) <==> FieldIs(field, sum as int)
  {
    var a, b := CText.Digit(field[0]), CText.Digit(field[1]);
    if field[0] == CText.NUL || field[1] == CText.NUL {
      assert |CText.CStr(field)| < 2;
    } else {
      CText.CStrOfClean(field);
      TwoCharacters(field);
    }
  }

  lemma TwoCharacters(s: string)
    requires |s| == 2
    ensures var a, b := CText.Digit(s[0]), CText.Digit(s[1]);
            var n := CText.Strtoul(s, 16);
            && (n.end == 2 <==> b < 16 && (a < 16 || CText.IsSpace(s[0]) || s[0] in "+-"))
            && (n.end == 2 ==> n.value == if a < 16 then a * 16 + b
                                          else if s[0] == '-' && b > 0 then 0x1_0000_0000 - b
                                          else b)
  {
    OneDigit(s[1]);
    TwoDigits(s);
    assert s[0..2] == s && s[1..2] == [s[1]];
    assert s[0] == '-' || s[0] == '+' ==> !CText.IsSpace(s[0]);
  }

  lemma OneDigit(c: char)
    ensures CText.DigitsValue([c], 16) == CText.Digit(c)
  {
    assert [c][..0] == [];
  }

  lemma TwoDigits(s: string)
    requires |s| == 2
    ensures CText.DigitsValue(s, 16) == CText.Digit(s[0]) * 16 + CText.Digit(s[1])
  {
    assert s[..1] == [s[0]];
    OneDigit(s[0]);
  }

  lemma HexMatches(sum: bv8, other: bv8)
    ensures FieldMatches(Checksum.Hex2(sum), other) <==> other == sum
  {
    var f := Checksum.Hex2(sum);
    HexDigitValue(sum as int / 16);
    HexDigitValue(sum as int % 16);
    FieldValue(f, other);
    if sum as int == other as int {
      assert sum == other;
    }
  }

  /** The text of a frame, received with a body `b` in place of the body `sent` it was computed
      for: a frame that closes where it should, judged by the two checksums. */
  lemma ReceivedAs(N: nat, b: string, sent: string)
    requires Deliverable(N, b)
    ensures FirstEnd(N, b + Trailer(sent), |b| + 5)
    ensures Judge(b + Trailer(sent))
            == if Checksum.Sum(b) == Checksum.Sum(sent) then Dispatch(b) else ChecksumError
  {
    var f := b + Trailer(sent);
    FrameCloses(N, b, sent, f);
    var field := Checksum.Hex2(Checksum.Sum(sent));
    FrameParts(b, sent, f, field);
    JudgeOf(f, b, field);
    HexMatches(Checksum.Sum(sent), Checksum.Sum(b));
  }

  lemma JudgeOf(f: string, b: string, field: string)
    requires |f| >= 10 && f[|f| - 5] == '*' && f[..|f| - 5] == b && f[|f| - 4..|f| - 2] == field
    ensures Judge(f) == if FieldMatches(field, Checksum.Sum(b)) then Dispatch(b) else ChecksumError
  {
  }

  lemma FrameCloses(N: nat, b: string, sent: string, f: string)
    requires Deliverable(N, b) && f == b + Trailer(sent)
    ensures FirstEnd(N, f, |b| + 5)
  {
    var sum := Checksum.Sum(sent);
    HexDigitValue(sum as int / 16);
    HexDigitValue(sum as int % 16);
    assert forall k :: 0 <= k <= |b| ==> EndsAt(f, k) == EndsAt(b, k);
    assert f[|b| + 3] == '\r' && f[|b| + 4] == '\n';
  }

  lemma FrameParts(b: string, sent: string, f: string, field: string)
    requires f == b + Trailer(sent) && field == Checksum.Hex2(Checksum.Sum(sent))
    ensures |f| == |b| + 5 && f[|f| - 5] == '*' && f[..|f| - 5] == b && f[|f| - 4..|f| - 2] == field
  {
  }

  // ------------------------------------------------- runs inside one segment

  /** Text without '$' that neither closes a frame nor fills the buffer is just collected. */
  lemma {:induction false} Collects(N: nat, held: string, text: string)
    requires |held| + |text| < N
    requires forall k :: 0 <= k < |text| ==> text[k] != '$'
    requires forall k :: |held| < k <= |held + text| ==> !EndsAt(held + text, k)
    ensures Run(N, Collecting(held), text) == (Collecting(held + text), [])
    decreases text
  {
    if text == [] {
      assert held + text == held;
    } else {
      var h := held + [text[0]];
      assert h + text[1..] == held + text;
      assert EndsAt(h, |h|) == EndsAt(held + text, |h|);
      assert text == [text[0]] + text[1..];
      RunFirst(N, Collecting(held), text[0], text[1..]);
      Collects(N, h, text[1..]);
    }
  }

  /** A whole segment that closes with its last character. */
  lemma Closes(N: nat, st: State, f: string)
    requires FirstEnd(N, f, |f|)
    requires forall k :: 0 <= k < |f| ==> f[k] != '$'
    ensures Run(N, st, "$" + f) == (Idle, [Judge(f)])
  {
    var n := |f| - 1;
    assert f == f[..n] + [f[n]];
    assert forall k :: 0 <= k <= n ==> EndsAt(f[..n], k) == EndsAt(f, k);
    CollectsAndCloses(N, f[..n], f[n], f);
    RunFirst(N, st, '$', f);
  }

  lemma CollectsAndCloses(N: nat, held: string, ch: char, f: string)
    requires f == held + [ch] && |f| <= N && EndsAt(f, |f|) && ch != '$'
    requires forall k :: 0 <= k < |held| ==> held[k] != '$'
    requires forall k :: 0 <= k <= |held| ==> !EndsAt(held, k)
    ensures Run(N, Collecting([]), f) == (Idle, [Judge(f)])
  {
    assert [] + held == held;
    Collects(N, [], held);
    RunConcat(N, Collecting([]), held, [ch]);
    LastCharacter(N, held, ch, f);
    assert [] + [Judge(f)] == [Judge(f)];
  }

  lemma LastCharacter(N: nat, held: string, ch: char, f: string)
    requires f == held + [ch] && EndsAt(f, |f|) && ch != '$'
    ensures Run(N, Collecting(held), [ch]) == (Idle, [Judge(f)])
  {
    assert [ch] + [] == [ch];
    RunFirst(N, Collecting(held), ch, []);
  }

  /** Every frame with a deliverable body is dispatched, whatever was received before it. */
  lemma FrameArrives(N: nat, st: State, b: string, sent: string)
    requires Deliverable(N, b)
    ensures Run(N, st, "$" + b + Trailer(sent))
            == (Idle, [if Checksum.Sum(b) == Checksum.Sum(sent) then Dispatch(b) else ChecksumError])
  {
    var f := b + Trailer(sent);
    ReceivedAs(N, b, sent);
    TrailerHasNoDollar(sent);
    assert "$" + b + Trailer(sent) == "$" + f;
    Closes(N, st, f);
  }

  lemma TrailerHasNoDollar(body: string)
    ensures forall k :: 0 <= k < 5 ==> Trailer(body)[k] != '$'
  {
    var sum := Checksum.Sum(body);
    HexDigitValue(sum as int / 16);
    HexDigitValue(sum as int % 16);
  }

  /** A frame that was cut short leaves no event behind. */
  lemma CutFrameIsSilent(N: nat, st: State, b: string, n: nat)
    requires Deliverable(N, b) && n < |Frame(b)|
    ensures Run(N, st, Frame(b)[..n]).1 == []
  {
    if n > 0 {
      var f := b + Trailer(b);
      var text := f[..n - 1];
      assert Frame(b)[..n] == "$" + text;
      assert ("$" + text)[1..] == text;
      ReceivedAs(N, b, b);
      TrailerHasNoDollar(b);
      assert forall k :: 0 <= k <= |text| ==> EndsAt(text, k) == EndsAt(f, k);
      assert [] + text == text;
      Collects(N, [], text);
    }
  }

  // ---------------------------------------------------- truncation is harmless

  /** What one write of the transmitter puts on the line: a frame, or a proper prefix of one when
      the character buffer filled up. */
  datatype Piece = Whole(body: string) | Cut(body: string, written: nat)

  ghost predicate ValidPiece(N: nat, p: Piece) {
    Deliverable(N, p.body) && (p.Cut? ==> p.written < |Frame(p.body)|)
  }

  function Text(p: Piece): string {
    match p
    case Whole(b) => Frame(b)
    case Cut(b, n) => if n <= |Frame(b)| then Frame(b)[..n] else Frame(b)
  }

  function Line(pieces: seq<Piece>): string {
    if pieces == [] then [] else Text(pieces[0]) + Line(pieces[1..])
  }

  function Delivered(pieces: seq<Piece>): seq<Event> {
    if pieces == [] then []
    else (if pieces[0].Whole? then [Dispatch(pieces[0].body)] else []) + Delivered(pieces[1..])
  }

  /** From any state of the receiver, a line made of frames and cut frames dispatches exactly the
      bodies of the whole frames, in order: nothing is lost, nothing is made up, no error is
      raised. */
  lemma {:induction false} TruncationIsHarmless(N: nat, st: State, pieces: seq<Piece>)
    requires forall k :: 0 <= k < |pieces| ==> ValidPiece(N, pieces[k])
    ensures Run(N, st, Line(pieces)).1 == Delivered(pieces)
    decreases pieces
  {
    if pieces != [] {
      var p := pieces[0];
      RunConcat(N, st, Text(p), Line(pieces[1..]));
      TruncationIsHarmless(N, Run(N, st, Text(p)).0, pieces[1..]);
      match p {
        case Whole(b) => FrameArrives(N, st, b, b);
        case Cut(b, n) => CutFrameIsSilent(N, st, b, n);
      }
    }
  }

  // ------------------------------------------------------ corruption is caught

  /** One wrong body byte gives one checksum error and no dispatch. */
  lemma CorruptionIsCaught(N: nat, st: State, b: string, i: nat, x: char)
    requires i < |b| && Deliverable(N, b) && Deliverable(N, b[i := x])
    requires Checksum.Byte(x) != Checksum.Byte(b[i])
    ensures Run(N, st, Frame(b)[i + 1 := x]).1 == [ChecksumError]
  {
    assert Frame(b)[i + 1 := x] == "$" + b[i := x] + Trailer(b);
    FrameArrives(N, st, b[i := x], b);
    Checksum.ReplacementIsSeen(b, i, x);
  }

  /** So no character of a body is ever taken for another one. */
  lemma WrongCharacterIsCaught(N: nat, st: State, b: string, i: nat, x: char)
    requires i < |b| && Deliverable(N, b) && Deliverable(N, b[i := x])
    requires x != b[i] && x as int < 256 && b[i] as int < 256
    ensures Run(N, st, Frame(b)[i + 1 := x]).1 == [ChecksumError]
  {
    Checksum.BytesDiffer(x, b[i]);
    CorruptionIsCaught(N, st, b, i, x);
  }

  /** The limit of the checksum: a body whose bytes were permuted passes for the real one. */
  lemma ReorderingIsDispatched(N: nat, st: State, b: string, sent: string)
    requires Deliverable(N, b) && multiset(b) == multiset(sent)
    ensures Run(N, st, "$" + b + Trailer(sent)).1 == [Dispatch(b)]
  {
    Checksum.ReorderingIsNotSeen(b, sent);
    FrameArrives(N, st, b, sent);
  }

  // ----------------------------------------------- exactly which frames pass

  /** A closed frame is dispatched exactly when it is a body, '*', a field with the value of the
      body's checksum, and CRLF; any other closed frame is one checksum error. */
  lemma DispatchedIff(N: nat, st: State, f: string, body: string, field: string)
    requires FirstEnd(N, f, |f|) && (forall k :: 0 <= k < |f| ==> f[k] != '$')
    requires body == f[..|f| - 5] && field == f[|f| - 4..|f| - 2]
    ensures var dispatched := f == body + "*" + field + "\r\n" && FieldIs(field, Checksum.Sum(body) as int);
            Run(N, st, "$" + f) == (Idle, [if dispatched then Dispatch(body) else ChecksumError])
  {
    Closes(N, st, f);
    FieldValue(field, Checksum.Sum(body));
    FrameHasParts(f, body, field);
    if f[|f| - 5] == '*' {
      JudgeOf(f, body, field);
    }
  }

  lemma FrameHasParts(f: string, body: string, field: string)
    requires EndsAt(f, |f|) && body == f[..|f| - 5] && field == f[|f| - 4..|f| - 2]
    ensures f == body + "*" + field + "\r\n" <==> f[|f| - 5] == '*'
  {
    var g := body + "*" + field + "\r\n";
    if f[|f| - 5] == '*' {
      assert |f| == |g| && forall k :: 0 <= k < |f| ==> f[k] == g[k];
    } else {
      assert g[|f| - 5] == '*';
    }
  }

  /** A frame of the dispatcher's own tests. */
  lemma KnownFrame()
    ensures Frame("12345,") == "$12345,*1D\r\n"
  {
    Checksum.KnownSum();
  }

  // ------------------------------------- exactly which bodies can be delivered

  /** No segment can dispatch more than it holds. */
  lemma {:induction false} DispatchedFits(N: nat, segments: seq<string>, bound: nat)
    requires forall k :: 0 <= k < |segments| ==> |segments[k]| < bound + 5
    ensures forall e :: e in AllEvents(N, segments) && e.Dispatch? ==> |e.body| < bound
    decreases segments
  {
    if segments != [] {
      DispatchedFits(N, segments[1..], bound);
    }
  }

  /** Cutting at a '$' makes every part shorter; without one there is a single part. */
  lemma {:induction false} SegmentsOf(s: string)
    ensures forall p :: p in Segments(s) ==> |p| <= |s|
    ensures (exists k :: 0 <= k < |s| && s[k] == '$') ==>
              forall p :: p in Segments(s) ==> |p| < |s|
    ensures (forall k :: 0 <= k < |s| ==> s[k] != '$') ==> Segments(s) == [s]
  {
    if s != [] {
      SegmentsOf(s[1..]);
      var parts := Segments(s[1..]);
      assert forall p :: p in Segments(s) ==> p in parts || p == Segments(s)[0];
      assert parts[0] in parts;
      if s[0] != '$' && exists k :: 0 <= k < |s| && s[k] == '$' {
        var k :| 0 <= k < |s| && s[k] == '$';
        assert s[1..][k - 1] == '$';
      }
      if forall k :: 0 <= k < |s| ==> s[k] != '$' {
        assert [s[0]] + s[1..] == s;
      }
    }
  }

  /** A frame reaches the message processing, alone and unchanged, exactly when its body is
      deliverable. */
  lemma DeliveredIff(N: nat, b: string)
    requires N > 0
    ensures Run(N, Idle, Frame(b)).1 == [Dispatch(b)] <==> Deliverable(N, b)
  {
    if Deliverable(N, b) {
      FrameArrives(N, Idle, b, b);
    }
    if Run(N, Idle, Frame(b)).1 == [Dispatch(b)] {
      OnlyDeliverable(N, b);
    }
  }

  lemma OnlyDeliverable(N: nat, b: string)
    requires N > 0 && Run(N, Idle, Frame(b)).1 == [Dispatch(b)]
    ensures Deliverable(N, b)
  {
    var f := b + Trailer(b);
    assert Frame(b) == "$" + f;
    assert Frame(b)[1..] == f;
    RunRefinesStream(N, Idle, Frame(b));
    assert Segments(Frame(b))[1..] == Segments(f);
    var events := AllEvents(N, Segments(f));
    assert events == [Dispatch(b)];
    assert Dispatch(b) in events;
    SegmentsOf(f);
    if exists k :: 0 <= k < |f| && f[k] == '$' {
      DispatchedFits(N, Segments(f), |b|);
      assert false;
    } else {
      assert AllEvents(N, [f]) == SegmentEvents(N, f) by {
        assert [f][1..] == [];
      }
      SoleEventIsBody(N, b, f);
    }
  }

  lemma SoleEventIsBody(N: nat, b: string, f: string)
    requires f == b + Trailer(b) && SegmentEvents(N, f) == [Dispatch(b)]
    requires forall k :: 0 <= k < |f| ==> f[k] != '$'
    ensures Deliverable(N, b)
  {
    var length: nat :| FirstEnd(N, f, length);
    SegmentEventsOf(N, f, length);
    assert length == |f|;
    assert forall k :: 0 <= k < |b| ==> b[k] == f[k];
    assert forall k :: 0 <= k <= |b| ==> EndsAt(b, k) == EndsAt(f, k);
  }
}
