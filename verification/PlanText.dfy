/** Spin plans as text: parse_set_plan and serialize_plan_reply (src/spinner/spinner.c). A target is
    an exact decimal number; what a float makes of it is not part of this model. */
module PlanText {

  import opened Options
  import CText

  const UCHAR_MAX: nat := 255

  /** units / 10^places */
  datatype Decimal = Decimal(units: int, places: nat)

  datatype Leg = Leg(durationMsecs: nat, target: Decimal)

  // ------------------------------------------------------- decimal fractions

  function Pow10(n: nat): nat {
    if n == 0 then 1 else 10 * Pow10(n - 1)
  }

  /** The last `width` decimal digits of n. */
  function LastDigits(n: nat, width: nat): (s: string)
    ensures |s| == width
    ensures forall k :: 0 <= k < |s| ==> '0' <= s[k] <= '9'
  {
    if width == 0 then [] else LastDigits(n / 10, width - 1) + ["0123456789"[n % 10]]
  }

  /** The "%f" conversion of micros / 10^6. */
  function FormatFixed(micros: int): (s: string)
    ensures s != []
  {
    var m := if micros < 0 then -micros else micros;
    (if micros < 0 then "-" else "") + CText.Decimal(m / 1000000) + "." + LastDigits(m % 1000000, 6)
  }

  /** strtof(s, &end_ptr) on plain decimal numbers. */
  function Strtof(s: string): (Decimal, nat) {
    var i := CText.SkipSpace(s, 0);
    var negative := i < |s| && s[i] == '-';
    var k := if negative || (i < |s| && s[i] == '+') then i + 1 else i;
    var e := CText.DigitsEnd(s, k, 10);
    DecimalAt(s, k, e, FractionEnd(s, e), negative)
  }

  function FractionEnd(s: string, e: nat): (f: nat)
    requires e <= |s|
    ensures e <= f <= |s|
  {
    if e < |s| && s[e] == '.' then CText.DigitsEnd(s, e + 1, 10) else e
  }

  /** The number between k and f, with its point, if any, at e. */
  function DecimalAt(s: string, k: nat, e: nat, f: nat, negative: bool): (Decimal, nat)
    requires k <= e <= f <= |s|
  {
    var digits := s[k..e] + (if f > e then s[e + 1..f] else []);
    if digits == [] then (Decimal(0, 0), 0)
    else
      var v: int := CText.DigitsValue(digits, 10);
      (Decimal(if negative then -v else v, if f > e then f - e - 1 else 0), f)
  }

  lemma ShiftedDigit(v: nat, p: nat, n: nat)
    ensures (v * p + n / 10) * 10 + n % 10 == v * (10 * p) + n
  {
    assert v * (10 * p) == 10 * (v * p);
  }

  lemma {:induction false} ValueOfLastDigits(a: string, n: nat, width: nat)
    requires n < Pow10(width)
    ensures CText.DigitsValue(a + LastDigits(n, width), 10) == CText.DigitsValue(a, 10) * Pow10(width) + n
  {
    if width == 0 {
      assert a + LastDigits(n, 0) == a;
    } else {
      var init := a + LastDigits(n / 10, width - 1);
      var digit := "0123456789"[n % 10];
      ValueOfLastDigits(a, n / 10, width - 1);
      ShiftedDigit(CText.DigitsValue(a, 10), Pow10(width - 1), n);
      assert a + LastDigits(n, width) == init + [digit];
      ValueOfOneMore(init, digit);
    }
  }

  lemma ValueOfOneMore(s: string, d: char)
    ensures CText.DigitsValue(s + [d], 10) == CText.DigitsValue(s, 10) * 10 + CText.Digit(d)
  {
    assert (s + [d])[..|s|] == s;
  }

  lemma Pow10OfSix()
    ensures Pow10(6) == 1000000
  {
    assert Pow10(2) == 100;
    assert Pow10(4) == 10000;
  }

  lemma FixedValue(micros: nat)
    ensures CText.DigitsValue(CText.Decimal(micros / 1000000) + LastDigits(micros % 1000000, 6), 10) == micros
  {
    Pow10OfSix();
    CText.DecimalValue(micros / 1000000);
    ValueOfLastDigits(CText.Decimal(micros / 1000000), micros % 1000000, 6);
  }

  lemma DigitsEndIs(s: string, i: nat, j: nat)
    requires i <= j <= |s| && CText.AllDigits(s, i, j) && (j < |s| ==> CText.Digit(s[j]) >= 10)
    ensures CText.DigitsEnd(s, i, 10) == j
  {
    assert forall k :: i <= k < j ==> CText.Digit(s[k]) < 10;
  }

  /** A whole text that is a decimal number: digits from k on, with at most one point, at e, in front
      of, among or behind them. */
  ghost predicate DecimalFrom(s: string, k: nat, e: nat) {
    && k <= e <= |s| && CText.LeadIn(s, k) && CText.AllDigits(s, k, e)
    && (if e == |s| then k < e else s[e] == '.' && CText.AllDigits(s, e + 1, |s|) && k + 2 <= |s|)
  }

  /** All the digits of such a text, without the point. */
  ghost function DigitsOf(s: string, k: nat, e: nat): string
    requires k <= e <= |s|
  {
    s[k..e] + if e < |s| then s[e + 1..] else []
  }

  /** strtof reads every such text in full, as the signed number of all its digits with as many places
      as there are digits behind the point. */
  lemma StrtofOfNumber(s: string, k: nat, e: nat)
    requires DecimalFrom(s, k, e)
    ensures var v: int := CText.DigitsValue(DigitsOf(s, k, e), 10);
            Strtof(s) == (Decimal(if k > 0 && s[k - 1] == '-' then -v else v, if e < |s| then |s| - e - 1 else 0), |s|)
  {
    assert s[k] == '.' || '0' <= s[k] <= '9';
    CText.LeadInEnds(s, k);
    TargetScans(s, k, e);
    StrtofScans(s, CText.SkipSpace(s, 0), k, e);
    DecimalAtEnd(s, k, e, k > 0 && s[k - 1] == '-');
  }

  lemma TargetScans(s: string, k: nat, e: nat)
    requires DecimalFrom(s, k, e)
    ensures CText.DigitsEnd(s, k, 10) == e && FractionEnd(s, e) == |s|
  {
    DigitsEndIs(s, k, e);
    if e < |s| {
      DigitsEndIs(s, e + 1, |s|);
    }
  }

  /** What strtof makes of the places where its scans stop. */
  lemma StrtofScans(s: string, i: nat, k: nat, e: nat)
    requires i <= k <= e <= |s| && i < |s| && i == CText.SkipSpace(s, 0) && e == CText.DigitsEnd(s, k, 10)
    requires i == k || i + 1 == k
    requires s[i] == '-' || s[i] == '+' <==> i + 1 == k
    ensures Strtof(s) == DecimalAt(s, k, e, FractionEnd(s, e), i < k && s[i] == '-')
  {
  }

  lemma DecimalAtEnd(s: string, k: nat, e: nat, negative: bool)
    requires k <= e <= |s| && DigitsOf(s, k, e) != []
    ensures var v: int := CText.DigitsValue(DigitsOf(s, k, e), 10);
            DecimalAt(s, k, e, |s|, negative)
            == (Decimal(if negative then -v else v, if e < |s| then |s| - e - 1 else 0), |s|)
  {
    if e < |s| {
      assert s[e + 1..|s|] == s[e + 1..];
    }
  }

  /** ... and no other: a text that holds anything more is not a target. */
  lemma StrtofOfOther(s: string)
    requires forall k: nat, e: nat :: !DecimalFrom(s, k, e)
    ensures !IsDecimal(s)
  {
    var i := CText.SkipSpace(s, 0);
    var k := if i < |s| && (s[i] == '-' || s[i] == '+') then i + 1 else i;
    var e := CText.DigitsEnd(s, k, 10);
    assert CText.LeadIn(s, k);
    if IsDecimal(s) {
      assert CText.AllDigits(s, k, e);
      assert e < |s| ==> CText.AllDigits(s, e + 1, |s|);
      assert DecimalFrom(s, k, e);
    }
  }

  /** Six-decimal values survive printing with "%f" and reading with strtof. */
  lemma FixedRoundTrip(micros: int)
    ensures Strtof(FormatFixed(micros)) == (Decimal(micros, 6), |FormatFixed(micros)|)
  {
    var m := if micros < 0 then -micros else micros;
    var sign := if micros < 0 then "-" else "";
    var whole, fraction := CText.Decimal(m / 1000000), LastDigits(m % 1000000, 6);
    FixedValue(m);
    FormatPositions(sign, whole, fraction, FormatFixed(micros));
    FixedIsRead(FormatFixed(micros), |sign|, |sign| + |whole|, whole, fraction);
  }

  lemma FixedIsRead(s: string, k: nat, e: nat, whole: string, fraction: string)
    requires k <= 1 && k < e < |s| && (k == 1 ==> s[0] == '-') && s[e] == '.'
    requires s[k..e] == whole && s[e + 1..] == fraction
    requires CText.AllDigits(whole, 0, |whole|) && CText.AllDigits(fraction, 0, |fraction|)
    ensures var v: int := CText.DigitsValue(whole + fraction, 10);
            Strtof(s) == (Decimal(if k == 1 then -v else v, |fraction|), |s|)
  {
    FormatDigits(s, k, e, whole, fraction);
    StrtofOfNumber(s, k, e);
  }

  lemma FormatDigits(s: string, k: nat, e: nat, whole: string, fraction: string)
    requires k <= 1 && k < e < |s| && (k == 1 ==> s[0] == '-') && s[e] == '.'
    requires s[k..e] == whole && s[e + 1..] == fraction
    requires CText.AllDigits(whole, 0, |whole|) && CText.AllDigits(fraction, 0, |fraction|)
    ensures DecimalFrom(s, k, e) && DigitsOf(s, k, e) == whole + fraction
  {
    assert forall j :: k <= j < e ==> s[j] == whole[j - k];
    assert forall j :: e < j < |s| ==> s[j] == fraction[j - e - 1];
  }

  lemma FormatPositions(sign: string, whole: string, fraction: string, s: string)
    requires s == sign + whole + "." + fraction
    ensures var k, e := |sign|, |sign| + |whole|;
            && |s| == e + 1 + |fraction| && (k > 0 ==> s[0] == sign[0]) && s[e] == '.'
            && s[k..e] == whole && s[e + 1..] == fraction
  {
  }

  // --------------------------------------------------------------- the tokens

  /** All tokens of a text, as successive calls of strtok_r deliver them. */
  function Tokens(s: string): seq<string>
    decreases |s|
  {
    match CText.NextToken(s)
    case None => []
    case Some(t) => [t.text] + Tokens(t.rest)
  }

  predicate IsUnsigned(token: string) {
    var n := CText.Strtoul(token, 10);
    !n.outOfRange && n.end != 0 && n.end == |token|
  }

  function UnsignedOf(token: string): nat {
    CText.Strtoul(token, 10).value
  }

  predicate IsDecimal(token: string) {
    var (_, end) := Strtof(token);
    end != 0 && end == |token|
  }

  /** The legs that pairs of duration and target spell, if that is what the tokens are. */
  function LegsOf(tokens: seq<string>): Option<seq<Leg>> {
    if tokens == [] then Some([])
    else if |tokens| == 1 || !IsUnsigned(tokens[0]) || !IsDecimal(tokens[1]) then None
    else
      match LegsOf(tokens[2..])
      case None => None
      case Some(legs) => Some([Leg(UnsignedOf(tokens[0]), Strtof(tokens[1]).0)] + legs)
  }

  predicate IsChannel(tokens: seq<string>) {
    tokens != [] && IsUnsigned(tokens[0]) && UnsignedOf(tokens[0]) <= UCHAR_MAX
  }

  datatype Parsed = Rejected | Accepted(channel: nat, legs: seq<Leg>, legCount: nat)

  /** What becomes of a packet with these tokens; `max` is MAX_SPIN_PLAN_LEGS and `before` what plan_leg_count happens
      to hold. */
  function ParseOf(max: nat, before: nat, tokens: seq<string>): (r: Parsed)
    ensures r.Accepted? ==> |r.legs| <= max
  {
    if !IsChannel(tokens) || !Fits(LegsOf(tokens[1..]), max) then Rejected
    else
      var legs := LegsOf(tokens[1..]).value;
      Accepted(UnsignedOf(tokens[0]), legs, if |legs| < max then |legs| else before)
  }

  // ----------------------------------------- what a packet spells, character by character

  /** The text is an unsigned number of 32 bits; a minus sign negates it as such. */
  ghost predicate SpellsNumber(text: string, n: nat) {
    exists k: nat ::
      && CText.NumberFrom(text, k) && CText.DigitsValue(text[k..], 10) <= CText.ULONG_MAX
      && n == var v := CText.DigitsValue(text[k..], 10);
              if k > 0 && text[k - 1] == '-' && v > 0 then CText.ULONG_MAX + 1 - v else v
  }

  /** The text is a decimal number: its sign, its digits, and its places behind the point. */
  ghost predicate SpellsTarget(text: string, d: Decimal) {
    exists k: nat, e: nat :: DecimalFrom(text, k, e) && d == TargetAt(text, k, e)
  }

  ghost function TargetAt(text: string, k: nat, e: nat): Decimal
    requires k <= e <= |text|
  {
    var v: int := CText.DigitsValue(DigitsOf(text, k, e), 10);
    Decimal(if k > 0 && text[k - 1] == '-' then -v else v, if e < |text| then |text| - e - 1 else 0)
  }

  /** Duration and target in turn. */
  ghost predicate SpellsLegs(tokens: seq<string>, legs: seq<Leg>) {
    && |tokens| == 2 * |legs|
    && forall j :: 0 <= j < |legs| ==>
         SpellsNumber(tokens[2 * j], legs[j].durationMsecs) && SpellsTarget(tokens[2 * j + 1], legs[j].target)
  }

  lemma NumberSpelled(text: string, n: nat)
    requires text != []
    ensures IsUnsigned(text) && UnsignedOf(text) == n <==> SpellsNumber(text, n)
  {
    if k: nat :| CText.NumberFrom(text, k) {
      CText.StrtoulOfNumber(text, k);
      forall j: nat | CText.NumberFrom(text, j)
        ensures j == k
      {
        CText.OneStart(text, j, k);
      }
    } else {
      CText.StrtoulOfOther(text);
    }
  }

  lemma TargetSpelled(text: string, d: Decimal)
    ensures IsDecimal(text) && Strtof(text).0 == d <==> SpellsTarget(text, d)
  {
    if k: nat, e: nat :| DecimalFrom(text, k, e) {
      StrtofOfNumber(text, k, e);
      forall j: nat, f: nat | DecimalFrom(text, j, f)
        ensures j == k && f == e
      {
        OnePoint(text, j, f, k, e);
      }
    } else {
      StrtofOfOther(text);
    }
  }

  lemma OnePoint(text: string, j: nat, f: nat, k: nat, e: nat)
    requires DecimalFrom(text, j, f) && DecimalFrom(text, k, e)
    ensures j == k && f == e
  {
    CText.OneStart(text, j, k);
  }

  lemma {:induction false} LegsOfIff(tokens: seq<string>, legs: seq<Leg>)
    requires forall j :: 0 <= j < |tokens| ==> tokens[j] != []
    ensures LegsOf(tokens) == Some(legs) <==> SpellsLegs(tokens, legs)
    decreases tokens
  {
    if |tokens| >= 2 && legs != [] {
      NumberSpelled(tokens[0], legs[0].durationMsecs);
      TargetSpelled(tokens[1], legs[0].target);
      LegsOfIff(tokens[2..], legs[1..]);
      FirstLeg(tokens, legs);
      LegsOfFirst(tokens, legs);
    }
  }

  lemma LegsOfFirst(tokens: seq<string>, legs: seq<Leg>)
    requires |tokens| >= 2 && legs != []
    ensures LegsOf(tokens) == Some(legs) <==>
              && IsUnsigned(tokens[0]) && UnsignedOf(tokens[0]) == legs[0].durationMsecs
              && IsDecimal(tokens[1]) && Strtof(tokens[1]).0 == legs[0].target
              && LegsOf(tokens[2..]) == Some(legs[1..])
  {
    assert legs == [legs[0]] + legs[1..];
  }

  lemma FirstLeg(tokens: seq<string>, legs: seq<Leg>)
    requires |tokens| >= 2 && legs != []
    ensures SpellsLegs(tokens, legs) <==>
              && SpellsNumber(tokens[0], legs[0].durationMsecs) && SpellsTarget(tokens[1], legs[0].target)
              && SpellsLegs(tokens[2..], legs[1..])
  {
    var ts, ls := tokens[2..], legs[1..];
    if SpellsLegs(tokens, legs) {
      forall j | 0 <= j < |ls|
        ensures SpellsNumber(ts[2 * j], ls[j].durationMsecs) && SpellsTarget(ts[2 * j + 1], ls[j].target)
      {
        assert ts[2 * j] == tokens[2 * (j + 1)] && ts[2 * j + 1] == tokens[2 * (j + 1) + 1];
      }
      assert SpellsNumber(tokens[2 * 0], legs[0].durationMsecs);
    }
    if SpellsNumber(tokens[0], legs[0].durationMsecs) && SpellsTarget(tokens[1], legs[0].target) && SpellsLegs(ts, ls) {
      forall j | 0 <= j < |legs|
        ensures SpellsNumber(tokens[2 * j], legs[j].durationMsecs) && SpellsTarget(tokens[2 * j + 1], legs[j].target)
      {
        if j > 0 {
          assert ts[2 * (j - 1)] == tokens[2 * j] && ts[2 * (j - 1) + 1] == tokens[2 * j + 1];
        }
      }
    }
  }

  /** A packet that is a channel number and a plan that fits. */
  ghost predicate SpellsPlan(max: nat, packet: string, channel: nat, legs: seq<Leg>) {
    var tokens := Tokens(packet);
    && tokens != [] && SpellsNumber(tokens[0], channel) && channel <= 255
    && SpellsLegs(tokens[1..], legs) && |legs| <= max
  }

  lemma {:induction false} NoTokenIsEmpty(s: string)
    ensures forall j :: 0 <= j < |Tokens(s)| ==> Tokens(s)[j] != []
    decreases |s|
  {
    var t := CText.NextToken(s);
    if t.Some? {
      NoTokenIsEmpty(t.value.rest);
    }
  }

  /** A packet is accepted, with a channel and legs, exactly when it spells them. */
  lemma AcceptedIff(max: nat, before: nat, packet: string, channel: nat, legs: seq<Leg>)
    ensures ParseOf(max, before, Tokens(packet)) == Accepted(channel, legs, if |legs| < max then |legs| else before)
            <==> SpellsPlan(max, packet, channel, legs)
  {
    var tokens := Tokens(packet);
    NoTokenIsEmpty(packet);
    if tokens != [] {
      NumberSpelled(tokens[0], channel);
      LegsOfIff(tokens[1..], legs);
    }
  }

  /** It is rejected exactly when it spells no plan at all. */
  lemma RejectedIff(max: nat, before: nat, packet: string)
    ensures ParseOf(max, before, Tokens(packet)).Rejected?
            <==> forall channel: nat, legs: seq<Leg> :: !SpellsPlan(max, packet, channel, legs)
  {
    var r := ParseOf(max, before, Tokens(packet));
    if r.Accepted? {
      AcceptedIff(max, before, packet, r.channel, r.legs);
    } else {
      forall channel: nat, legs: seq<Leg>
        ensures !SpellsPlan(max, packet, channel, legs)
      {
        AcceptedIff(max, before, packet, channel, legs);
      }
    }
  }

  /** A character behind a target that is not part of it makes the packet fail. */
  lemma TrailingCharacterIsRejected(max: nat, before: nat, packet: string, text: string, c: char, j: nat)
    requires SpellsSomeTarget(text) && !('0' <= c <= '9') && (c == '.' ==> '.' in text)
    requires 2 * j + 2 < |Tokens(packet)| && Tokens(packet)[2 * j + 2] == text + [c]
    ensures ParseOf(max, before, Tokens(packet)).Rejected?
  {
    forall k: nat, e: nat
      ensures !DecimalFrom(text + [c], k, e)
    {
      NotATarget(text, c, k, e);
    }
    BadTargetIsRejected(max, before, packet, text + [c], j);
  }

  lemma BadTargetIsRejected(max: nat, before: nat, packet: string, text: string, j: nat)
    requires !SpellsSomeTarget(text) && 2 * j + 2 < |Tokens(packet)| && Tokens(packet)[2 * j + 2] == text
    ensures ParseOf(max, before, Tokens(packet)).Rejected?
  {
    assert Tokens(packet)[1..][2 * j + 1] == text;
    forall channel: nat, legs: seq<Leg>
      ensures !SpellsPlan(max, packet, channel, legs)
    {
      NoPlanWithout(Tokens(packet)[1..], legs, j);
    }
    RejectedIff(max, before, packet);
  }

  lemma NoPlanWithout(tokens: seq<string>, legs: seq<Leg>, j: nat)
    requires 2 * j + 1 < |tokens| && !SpellsSomeTarget(tokens[2 * j + 1])
    ensures !SpellsLegs(tokens, legs)
  {
    if |tokens| == 2 * |legs| {
      assert !SpellsTarget(tokens[2 * j + 1], legs[j].target);
    }
  }

  ghost predicate SpellsSomeTarget(text: string) {
    exists k: nat, e: nat :: DecimalFrom(text, k, e)
  }

  lemma NotATarget(text: string, c: char, k: nat, e: nat)
    requires SpellsSomeTarget(text) && !('0' <= c <= '9') && (c == '.' ==> '.' in text)
    ensures !DecimalFrom(text + [c], k, e)
  {
    var j: nat, f: nat :| DecimalFrom(text, j, f);
    var s := text + [c];
    assert s[|text|] == c && forall i :: 0 <= i < |text| ==> s[i] == text[i];
  }

  lemma ShortNumber(s: string, n: nat)
    requires 1 <= |s| <= 2 && CText.AllDigits(s, 0, |s|)
    requires n == if |s| == 1 then CText.Digit(s[0]) else CText.Digit(s[0]) * 10 + CText.Digit(s[1])
    ensures IsUnsigned(s) && UnsignedOf(s) == n && IsDecimal(s) && Strtof(s).0 == Decimal(n, 0)
  {
    ShortValue(s, n);
    CText.StrtoulOfDigits(s);
    WholeTarget(s, n);
  }

  lemma ShortValue(s: string, n: nat)
    requires 1 <= |s| <= 2
    requires n == if |s| == 1 then CText.Digit(s[0]) else CText.Digit(s[0]) * 10 + CText.Digit(s[1])
    ensures CText.DigitsValue(s, 10) == n
  {
    assert s == [s[0]] || s == [s[0]] + [s[1]];
    ValueOfOneMore([], s[0]);
    assert [] + [s[0]] == [s[0]];
    if |s| == 2 {
      ValueOfOneMore([s[0]], s[1]);
    }
  }

  lemma WholeTarget(s: string, n: nat)
    requires s != [] && CText.AllDigits(s, 0, |s|) && CText.DigitsValue(s, 10) == n
    ensures IsDecimal(s) && Strtof(s).0 == Decimal(n, 0)
  {
    StrtofOfNumber(s, 0, |s|);
    assert s[0..|s|] + [] == s;
  }

  lemma KnownTarget(s: string)
    requires s == "13.3"
    ensures IsDecimal(s) && Strtof(s).0 == Decimal(133, 1)
  {
    StrtofOfNumber(s, 0, 2);
    ShortValue(s[0..2], 13);
    ValueOfOneMore(s[0..2], '3');
    assert s[3..] == ['3'];
  }

  predicate IsPiece(text: string) {
    text != [] && CText.CommaFree(text)
  }

  /** A packet with two legs. */
  lemma TwoLegs(packet: string, channel: string, d1: string, t1: string, d2: string, t2: string)
    returns (others: seq<string>)
    requires IsPiece(channel) && IsPiece(d1) && IsPiece(t1) && IsPiece(d2) && IsPiece(t2)
    requires packet == channel + "," + d1 + "," + t1 + "," + d2 + "," + t2
    ensures Tokens(packet) == [channel] + others && |others| == 4
    ensures others[0] == d1 && others[1] == t1 && others[2] == d2 && others[3] == t2
  {
    others := [d1] + ([t1] + ([d2] + ([t2] + [])));
    var second := "," + d2 + "," + t2 + [];
    var first := "," + d1 + "," + t1 + second;
    assert packet == channel + first;
    TokensOf(packet, channel, first);
    TwoTokens(first, d1, t1, second);
    TwoTokens(second, d2, t2, []);
  }

  lemma SpellsTwo(tokens: seq<string>, legs: seq<Leg>)
    requires |tokens| == 4 && |legs| == 2
    requires SpellsNumber(tokens[0], legs[0].durationMsecs) && SpellsTarget(tokens[1], legs[0].target)
    requires SpellsNumber(tokens[2], legs[1].durationMsecs) && SpellsTarget(tokens[3], legs[1].target)
    ensures SpellsLegs(tokens, legs)
  {
  }

  lemma FirstKnownLeg(d1: string, t1: string)
    requires d1 == "12" && t1 == "13.3"
    ensures SpellsNumber(d1, 12) && SpellsTarget(t1, Decimal(133, 1))
  {
    ShortNumber(d1, 12);
    NumberSpelled(d1, 12);
    KnownTarget(t1);
    TargetSpelled(t1, Decimal(133, 1));
  }

  lemma SecondKnownLeg(d2: string, t2: string)
    requires d2 == "42" && t2 == "52"
    ensures SpellsNumber(d2, 42) && SpellsTarget(t2, Decimal(52, 0))
  {
    ShortNumber(d2, 42);
    NumberSpelled(d2, 42);
    ShortNumber(t2, 52);
    TargetSpelled(t2, Decimal(52, 0));
  }

  lemma KnownLegs(tokens: seq<string>, legs: seq<Leg>)
    requires |tokens| == 4 && tokens[0] == "12" && tokens[1] == "13.3" && tokens[2] == "42" && tokens[3] == "52"
    requires legs == [Leg(12, Decimal(133, 1)), Leg(42, Decimal(52, 0))]
    ensures SpellsLegs(tokens, legs)
  {
    FirstKnownLeg(tokens[0], tokens[1]);
    SecondKnownLeg(tokens[2], tokens[3]);
    SpellsTwo(tokens, legs);
  }

  lemma KnownLegsOf(tokens: seq<string>, legs: seq<Leg>)
    requires |tokens| == 4 && tokens[0] == "12" && tokens[1] == "13.3" && tokens[2] == "42" && tokens[3] == "52"
    requires legs == [Leg(12, Decimal(133, 1)), Leg(42, Decimal(52, 0))]
    ensures LegsOf(tokens) == Some(legs)
  {
    KnownLegs(tokens, legs);
    LegsSpelled(tokens, legs);
  }

  lemma LegsSpelled(tokens: seq<string>, legs: seq<Leg>)
    requires (forall j :: 0 <= j < |tokens| ==> tokens[j] != []) && SpellsLegs(tokens, legs)
    ensures LegsOf(tokens) == Some(legs)
  {
    LegsOfIff(tokens, legs);
  }

  /** A packet of the spinner's own tests: 4,12,13.3,42,52. */
  lemma KnownPacket(channel: string, d1: string, t1: string, d2: string, t2: string)
    requires channel == "4" && d1 == "12" && t1 == "13.3" && d2 == "42" && t2 == "52"
    ensures ParseOf(20, 0, Tokens(channel + "," + d1 + "," + t1 + "," + d2 + "," + t2))
            == Accepted(4, [Leg(12, Decimal(133, 1)), Leg(42, Decimal(52, 0))], 2)
  {
    var packet := channel + "," + d1 + "," + t1 + "," + d2 + "," + t2;
    var others := TwoLegs(packet, channel, d1, t1, d2, t2);
    ShortNumber(channel, 4);
    var legs := [Leg(12, Decimal(133, 1)), Leg(42, Decimal(52, 0))];
    KnownLegsOf(others, legs);
    ParsedTokens(20, 0, Tokens(packet), channel, others);
  }

  class SpinPlanData {
    var channelNum: nat
    var planLegCount: nat
    const planLegs: array<Leg>

    constructor (maxLegs: nat)
      ensures planLegs.Length == maxLegs && fresh(planLegs)
    {
      planLegs := new Leg[maxLegs](_ => Leg(0, Decimal(0, 0)));
    }

    /** parse_set_plan; planLegs.Length is MAX_SPIN_PLAN_LEGS. A packet with exactly that many legs
        is accepted without planLegCount being written. */
    method Parse(savePtr: string) returns (ok: bool)
      modifies this, planLegs
      ensures match ParseOf(planLegs.Length, old(planLegCount), Tokens(savePtr))
              case Rejected => !ok
              case Accepted(channel, legs, count) =>
                ok && channelNum == channel && planLegs[..|legs|] == legs && planLegCount == count
    {
      var channel, save := ParseChannel(savePtr);
      if channel.None? {
        return false;
      }
      channelNum := channel.value;
      ok := ParseLegs(save);
    }

    /** The loop over the pairs of duration and target. */
    method ParseLegs(savePtr: string) returns (ok: bool)
      modifies this`planLegCount, planLegs
      ensures ok == Fits(LegsOf(Tokens(savePtr)), planLegs.Length)
      ensures ok ==>
                var legs := LegsOf(Tokens(savePtr));
                && planLegs[..|legs.value|] == legs.value
                && planLegCount == if |legs.value| < planLegs.Length then |legs.value| else old(planLegCount)
    {
      var save := savePtr;
      ghost var legs, done := LegsOf(Tokens(savePtr)), [];
      ghost var left := legs;
      var i := 0;
      BehindNothing(legs);
      while i < planLegs.Length
        invariant i == |done| <= planLegs.Length && planLegs[..i] == done
        invariant left == LegsOf(Tokens(save)) && legs == Behind(done, left)
        invariant planLegCount == old(planLegCount)
      {
        var next := ParsePair(save);
        match next {
          case End =>
            BehindEnd(done, left, legs);
            planLegCount := i;
            return true;
          case Bad =>
            return false;
          case Pair(leg, rest) =>
            save, left := rest, LegsOf(Tokens(rest));
            BehindOne(done, leg, left);
            StoreLeg(i, leg);
            done := done + [leg];
        }
        i := i + 1;
      }
      ok := CText.NextToken(save).None?;
      NoMoreLegs(save);
      BehindEnd(done, left, legs);
    }

    /** The two fields of a leg, which the original writes one by one. */
    method StoreLeg(i: nat, leg: Leg)
      requires i < planLegs.Length
      modifies planLegs
      ensures planLegs[..i + 1] == old(planLegs[..i]) + [leg]
    {
      planLegs[i] := leg;
      assert planLegs[..i + 1] == planLegs[..i] + [leg];
    }

    /** serialize_plan_reply, into `len` characters of a buffer from `off` on. */
    method Serialize(buf: array<char>, off: nat, len: nat) returns (r: int)
      requires len > 0 && off + len <= buf.Length
      requires planLegCount <= planLegs.Length && Printable(planLegs[..planLegCount])
      modifies buf
      ensures forall k :: 0 <= k < buf.Length && !(off <= k < off + len) ==> buf[k] == old(buf[k])
      ensures var text := PlanLine(channelNum, planLegs[..planLegCount]);
              if |text| < len then r == |text| && buf[off..off + r] == text else r == -1
    {
      var pos := CText.Snprintf(buf, off, len, "," + CText.Decimal(channelNum));
      ghost var legs := planLegs[..planLegCount];
      if pos >= len {
        return -1;
      }
      for i := 0 to planLegCount
        invariant pos == |PlanLine(channelNum, legs[..i])| < len
        invariant buf[off..off + pos] == PlanLine(channelNum, legs[..i])
        invariant forall k :: 0 <= k < buf.Length && !(off <= k < off + len) ==> buf[k] == old(buf[k])
      {
        PlanLineNext(channelNum, legs, i);
        pos := AppendLeg(buf, off, pos, len, planLegs[i], PlanLine(channelNum, legs[..i]));
        if pos >= len {
          return -1;
        }
      }
      assert legs[..planLegCount] == legs;
      r := pos;
    }
  }

  /** One ",%lu,%f". */
  method AppendLeg(buf: array<char>, off: nat, pos: nat, len: nat, leg: Leg, ghost done: string) returns (pos': nat)
    requires pos < len && off + len <= buf.Length && buf[off..off + pos] == done
    modifies buf
    ensures forall k :: 0 <= k < buf.Length && !(off <= k < off + len) ==> buf[k] == old(buf[k])
    ensures pos' == pos + |LegLine(leg)|
    ensures pos' < len ==> buf[off..off + pos'] == done + LegLine(leg)
  {
    var n := CText.Snprintf(buf, off + pos, len - pos, LegLine(leg));
    pos' := pos + n;
    assert buf[off..off + pos] == done;
    if pos' < len {
      assert buf[off..off + pos'] == buf[off..off + pos] + buf[off + pos..off + pos'];
    }
  }

  /** The channel number at the start of a packet. */
  method ParseChannel(savePtr: string) returns (channel: Option<nat>, save: string)
    ensures var tokens := Tokens(savePtr);
            if channel.None? then !IsChannel(tokens)
            else IsChannel(tokens) && channel.value == UnsignedOf(tokens[0]) && Tokens(save) == tokens[1..]
  {
    var token := CText.NextToken(savePtr);
    if token.None? {
      return None, "";
    }
    var text := token.value.text;
    if !IsUnsigned(text) || UnsignedOf(text) > UCHAR_MAX {
      return None, "";
    }
    return Some(UnsignedOf(text)), token.value.rest;
  }

  predicate Fits(legs: Option<seq<Leg>>, max: nat) {
    legs.Some? && |legs.value| <= max
  }

  /** What was read before, in front of what is still to be read. */
  function Behind(done: seq<Leg>, legs: Option<seq<Leg>>): Option<seq<Leg>> {
    match legs case None => None case Some(rest) => Some(done + rest)
  }

  lemma BehindNothing(legs: Option<seq<Leg>>)
    ensures Behind([], legs) == legs
  {
    if legs.Some? {
      assert [] + legs.value == legs.value;
    }
  }

  lemma BehindEnd(done: seq<Leg>, left: Option<seq<Leg>>, legs: Option<seq<Leg>>)
    requires legs == Behind(done, left)
    ensures Fits(legs, |done|) <==> left == Some([])
    ensures left == Some([]) ==> legs == Some(done)
  {
    if left.Some? && left.value == [] {
      assert done + left.value == done;
    }
  }

  lemma BehindOne(done: seq<Leg>, leg: Leg, legs: Option<seq<Leg>>)
    ensures Behind(done, Behind([leg], legs)) == Behind(done + [leg], legs)
  {
    if legs.Some? {
      assert done + ([leg] + legs.value) == done + [leg] + legs.value;
    }
  }

  datatype Next = End | Bad | Pair(leg: Leg, rest: string)

  lemma NoMoreLegs(save: string)
    ensures LegsOf(Tokens(save)) == Some([]) <==> CText.NextToken(save).None?
  {
  }

  /** One round of the loop: a duration and a target, or the end of the packet. */
  method ParsePair(save: string) returns (next: Next)
    ensures LegsOf(Tokens(save)) == match next
                                    case End => Some([])
                                    case Bad => None
                                    case Pair(leg, rest) => Behind([leg], LegsOf(Tokens(rest)))
  {
    var duration := CText.NextToken(save);
    if duration.None? {
      return End;
    }
    var msecs := duration.value.text;
    ghost var left := Tokens(save);
    ghost var others := Tokens(duration.value.rest);
    LegsOfNext(left, msecs, others);
    if !IsUnsigned(msecs) {
      return Bad;
    }
    var target := CText.NextToken(duration.value.rest);
    if target.None? {
      return Bad;
    }
    var pct := target.value.text;
    assert others[0] == pct && others[1..] == Tokens(target.value.rest);
    if !IsDecimal(pct) {
      return Bad;
    }
    return Pair(Leg(UnsignedOf(msecs), Strtof(pct).0), target.value.rest);
  }

  lemma LegsOfNext(left: seq<string>, msecs: string, others: seq<string>)
    requires left == [msecs] + others
    ensures LegsOf(left) == if others == [] || !IsUnsigned(msecs) || !IsDecimal(others[0]) then None
                            else Behind([Leg(UnsignedOf(msecs), Strtof(others[0]).0)], LegsOf(others[1..]))
  {
    if others != [] {
      assert left[2..] == others[1..];
    }
  }

  // ------------------------------------------------------------- the plan as text

  /** Six decimals is what "%f" prints. */
  predicate Printable(legs: seq<Leg>) {
    forall i :: 0 <= i < |legs| ==> legs[i].target.places == 6 && legs[i].durationMsecs <= CText.ULONG_MAX
  }

  function LegLine(leg: Leg): string {
    "," + CText.Decimal(leg.durationMsecs) + "," + FormatFixed(leg.target.units)
  }

  function LegsLine(legs: seq<Leg>): string {
    if legs == [] then [] else LegLine(legs[0]) + LegsLine(legs[1..])
  }

  function PlanLine(channel: nat, legs: seq<Leg>): string {
    "," + CText.Decimal(channel) + LegsLine(legs)
  }

  lemma {:induction false} LegsLineNext(legs: seq<Leg>, i: nat)
    requires i < |legs|
    ensures LegsLine(legs[..i + 1]) == LegsLine(legs[..i]) + LegLine(legs[i])
    decreases i
  {
    if i == 0 {
      assert legs[..1][1..] == [];
      assert LegLine(legs[0]) + [] == [] + LegLine(legs[0]);
    } else {
      assert legs[..i + 1][1..] == legs[1..][..i] && legs[..i][1..] == legs[1..][..i - 1];
      LegsLineNext(legs[1..], i - 1);
    }
  }

  lemma {:induction false} LegsLineGrows(legs: seq<Leg>, i: nat)
    requires i <= |legs|
    ensures |LegsLine(legs[..i])| <= |LegsLine(legs)|
    decreases |legs| - i
  {
    if i == |legs| {
      assert legs[..i] == legs;
    } else {
      LegsLineNext(legs, i);
      LegsLineGrows(legs, i + 1);
    }
  }

  lemma PlanLineNext(channel: nat, legs: seq<Leg>, i: nat)
    requires i < |legs|
    ensures PlanLine(channel, legs[..i + 1]) == PlanLine(channel, legs[..i]) + LegLine(legs[i])
    ensures |PlanLine(channel, legs[..i + 1])| <= |PlanLine(channel, legs)|
  {
    LegsLineNext(legs, i);
    LegsLineGrows(legs, i + 1);
  }

  // ------------------------------------------------------------------ round trip

  lemma TokensSkipComma(s: string)
    ensures Tokens("," + s) == Tokens(s)
  {
    CText.NextTokenSkipsComma(s);
  }

  /** A comma-free text comes out as the first token, whatever list of tokens follows it. */
  lemma TokensOf(s: string, text: string, tail: string)
    requires s == text + tail && text != [] && CText.CommaFree(text) && (tail == [] || tail[0] == ',')
    ensures Tokens(s) == [text] + Tokens(tail)
  {
    var rest := if tail == [] then [] else tail[1..];
    CText.NextTokenOf(text, tail);
    TokensFrom(s, CText.Token(text, rest));
    TokensBehind(tail, rest);
  }

  lemma TokensBehind(tail: string, rest: string)
    requires if tail == [] then rest == [] else tail[0] == ',' && rest == tail[1..]
    ensures Tokens(tail) == Tokens(rest)
  {
    if tail != [] {
      assert tail == "," + rest;
      TokensSkipComma(rest);
    }
  }

  lemma TokensFrom(s: string, t: CText.Token)
    requires CText.NextToken(s) == Some(t)
    ensures Tokens(s) == [t.text] + Tokens(t.rest)
  {
  }

  lemma TokensBehindComma(s: string, text: string, tail: string)
    requires s == "," + text + tail && text != [] && CText.CommaFree(text) && (tail == [] || tail[0] == ',')
    ensures Tokens(s) == [text] + Tokens(tail)
  {
    assert s == "," + (text + tail);
    TokensSkipComma(text + tail);
    TokensOf(text + tail, text, tail);
  }

  lemma TwoTokens(s: string, first: string, second: string, tail: string)
    requires first != [] && CText.CommaFree(first) && second != [] && CText.CommaFree(second)
    requires tail == [] || tail[0] == ','
    requires s == "," + first + "," + second + tail
    ensures Tokens(s) == [first] + ([second] + Tokens(tail))
  {
    var middle := "," + second + tail;
    assert s == "," + first + middle;
    TokensBehindComma(s, first, middle);
    TokensBehindComma(middle, second, tail);
  }

  lemma FormatIsCommaFree(micros: int)
    ensures CText.CommaFree(FormatFixed(micros))
  {
  }

  lemma PrintedUnsigned(n: nat)
    requires n <= CText.ULONG_MAX
    ensures IsUnsigned(CText.Decimal(n)) && UnsignedOf(CText.Decimal(n)) == n
  {
    CText.DecimalRoundTrip(n);
  }

  lemma PrintedDecimal(micros: int)
    ensures IsDecimal(FormatFixed(micros)) && Strtof(FormatFixed(micros)).0 == Decimal(micros, 6)
  {
    FixedRoundTrip(micros);
  }

  lemma LegRoundTrip(tokens: seq<string>, leg: Leg, msecs: string, pct: string, others: seq<string>)
    requires leg.target.places == 6 && leg.durationMsecs <= CText.ULONG_MAX
    requires msecs == CText.Decimal(leg.durationMsecs) && pct == FormatFixed(leg.target.units)
    requires tokens == [msecs] + ([pct] + others)
    ensures LegsOf(tokens) == Behind([leg], LegsOf(others))
  {
    PrintedUnsigned(leg.durationMsecs);
    PrintedDecimal(leg.target.units);
    LegsOfNext(tokens, msecs, [pct] + others);
    assert ([pct] + others)[1..] == others;
  }

  lemma {:induction false} LegsRoundTrip(legs: seq<Leg>)
    requires Printable(legs)
    ensures LegsOf(Tokens(LegsLine(legs))) == Some(legs)
    decreases legs
  {
    if legs != [] {
      LegsRoundTrip(legs[1..]);
      OneLegMore(legs[0], LegsLine(legs[1..]), legs[1..]);
      assert [legs[0]] + legs[1..] == legs;
    }
  }

  lemma OneLegMore(leg: Leg, tail: string, rest: seq<Leg>)
    requires leg.target.places == 6 && leg.durationMsecs <= CText.ULONG_MAX
    requires (tail == [] || tail[0] == ',') && LegsOf(Tokens(tail)) == Some(rest)
    ensures LegsOf(Tokens(LegLine(leg) + tail)) == Some([leg] + rest)
  {
    var msecs, pct := CText.Decimal(leg.durationMsecs), FormatFixed(leg.target.units);
    TokensOfLeg(leg, msecs, pct, tail);
    LegInFront(Tokens(LegLine(leg) + tail), leg, msecs, pct, Tokens(tail), rest);
  }

  lemma LegInFront(tokens: seq<string>, leg: Leg, msecs: string, pct: string, others: seq<string>, rest: seq<Leg>)
    requires leg.target.places == 6 && leg.durationMsecs <= CText.ULONG_MAX
    requires msecs == CText.Decimal(leg.durationMsecs) && pct == FormatFixed(leg.target.units)
    requires tokens == [msecs] + ([pct] + others) && LegsOf(others) == Some(rest)
    ensures LegsOf(tokens) == Some([leg] + rest)
  {
    LegRoundTrip(tokens, leg, msecs, pct, others);
  }

  lemma TokensOfLeg(leg: Leg, msecs: string, pct: string, tail: string)
    requires msecs == CText.Decimal(leg.durationMsecs) && pct == FormatFixed(leg.target.units)
    requires tail == [] || tail[0] == ','
    ensures Tokens(LegLine(leg) + tail) == [msecs] + ([pct] + Tokens(tail))
  {
    FormatIsCommaFree(leg.target.units);
    TwoTokens(LegLine(leg) + tail, msecs, pct, tail);
  }

  /** What the parser gets of a serialised plan is the text behind its first comma. It is accepted
      when the legs fit, with the channel, the durations and the targets that were printed; the leg
      count is set when there is room for one more leg. */
  lemma PlanRoundTrip(channel: nat, legs: seq<Leg>, max: nat, before: nat)
    requires channel <= UCHAR_MAX && Printable(legs)
    ensures ParseOf(max, before, Tokens(PlanLine(channel, legs)[1..]))
            == if |legs| > max then Rejected
               else Accepted(channel, legs, if |legs| < max then |legs| else before)
  {
    var digits := CText.Decimal(channel);
    var text := PlanLine(channel, legs)[1..];
    assert text == digits + LegsLine(legs);
    TokensOf(text, digits, LegsLine(legs));
    PrintedUnsigned(channel);
    LegsRoundTrip(legs);
    ParsedTokens(max, before, Tokens(text), digits, Tokens(LegsLine(legs)));
  }

  lemma ParsedTokens(max: nat, before: nat, tokens: seq<string>, channel: string, others: seq<string>)
    requires tokens == [channel] + others && IsUnsigned(channel) && UnsignedOf(channel) <= UCHAR_MAX
    requires LegsOf(others).Some?
    ensures var legs := LegsOf(others).value;
            ParseOf(max, before, tokens)
            == if |legs| > max then Rejected
               else Accepted(UnsignedOf(channel), legs, if |legs| < max then |legs| else before)
  {
    assert tokens[1..] == others;
  }

  /** So a plan comes back whole exactly when it has fewer legs than fit, or when the memory it is
      parsed into happens to hold the right count already. */
  lemma PlanRecoveredIff(channel: nat, legs: seq<Leg>, max: nat, before: nat)
    requires channel <= UCHAR_MAX && Printable(legs)
    ensures ParseOf(max, before, Tokens(PlanLine(channel, legs)[1..])) == Accepted(channel, legs, |legs|)
            <==> |legs| < max || (|legs| == max && before == max)
  {
    PlanRoundTrip(channel, legs, max, before);
  }

  /** A plan with all 20 legs of the smaller board, parsed into fresh memory, counts none. */
  lemma FullPlanIsNotCounted()
    ensures var legs := seq(20, _ => Leg(0, Decimal(0, 6)));
            ParseOf(20, 0, Tokens(PlanLine(0, legs)[1..])) == Accepted(0, legs, 0)
  {
    PlanRoundTrip(0, seq(20, _ => Leg(0, Decimal(0, 6))), 20, 0);
  }
}
