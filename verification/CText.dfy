/** The parts of the C library that the dispatcher and the parsers lean on, as functions on
    character sequences: C strings, strtoul, "%lu"/"%ld" and strtok_r with the "," delimiter. */
module CText {

  import opened Options

  const NUL: char := 0 as char

  const ULONG_MAX: nat := 0xFFFF_FFFF

  // ---------------------------------------------------------------- C strings

  predicate NulFree(s: string) {
    forall k :: 0 <= k < |s| ==> s[k] != NUL
  }

  /** The C string that starts at the first character: everything before the first NUL. */
  function CStr(s: string): (r: string)
    ensures |r| <= |s| && r == s[..|r|]
    ensures forall k :: 0 <= k < |r| ==> s[k] != NUL
    ensures |r| < |s| ==> s[|r|] == NUL
  {
    if s == [] || s[0] == NUL then [] else [s[0]] + CStr(s[1..])
  }

  lemma CStrBeforeNul(s: string, z: nat)
    requires z < |s| && s[z] == NUL
    requires forall k :: 0 <= k < z ==> s[k] != NUL
    ensures CStr(s) == s[..z]
  {
    assert |CStr(s)| == z;
  }

  lemma CStrOfClean(s: string)
    requires NulFree(s)
    ensures CStr(s) == s
  {
    assert |CStr(s)| == |s|;
  }

  // ------------------------------------------------------------------ numbers

  function Digit(c: char): (d: nat)
    ensures d <= 36
  {
    if '0' <= c <= '9' then c as int - '0' as int
    else if 'A' <= c <= 'Z' then c as int - 'A' as int + 10
    else if 'a' <= c <= 'z' then c as int - 'a' as int + 10
    else 36
  }

  /** The hexadecimal digits, of either case. */
  lemma DigitIs(c: char)
    ensures var d := Digit(c);
            if d < 16 then c == "0123456789abcdef"[d] || c == "0123456789ABCDEF"[d]
            else c !in "0123456789abcdef" && c !in "0123456789ABCDEF"
  {
  }

  predicate IsSpace(c: char) {
    c == ' ' || '\t' as int <= c as int <= '\r' as int
  }

  function SkipSpace(s: string, i: nat): (j: nat)
    requires i <= |s|
    ensures i <= j <= |s|
    ensures forall k :: i <= k < j ==> IsSpace(s[k])
    ensures j < |s| ==> !IsSpace(s[j])
    decreases |s| - i
  {
    if i < |s| && IsSpace(s[i]) then SkipSpace(s, i + 1) else i
  }

  function DigitsEnd(s: string, i: nat, base: nat): (j: nat)
    requires i <= |s|
    ensures i <= j <= |s|
    ensures forall k :: i <= k < j ==> Digit(s[k]) < base
    ensures j < |s| ==> Digit(s[j]) >= base
    decreases |s| - i
  {
    if i < |s| && Digit(s[i]) < base then DigitsEnd(s, i + 1, base) else i
  }

  function DigitsValue(s: string, base: nat): nat {
    if s == [] then 0 else DigitsValue(s[..|s| - 1], base) * base + Digit(s[|s| - 1])
  }

  /** What strtoul leaves behind: the value, how far end_ptr moved, and whether errno was set. */
  datatype Number = Number(value: nat, end: nat, outOfRange: bool)

  /** strtoul(s, &end_ptr, base) on a 32-bit unsigned long, for base 10 and 16. */
  function Strtoul(s: string, base: nat): (r: Number)
    requires base == 10 || base == 16
    ensures r.end <= |s| && r.value <= ULONG_MAX
  {
    var i := SkipSpace(s, 0);
    var negative := i < |s| && s[i] == '-';
    var j := if negative || (i < |s| && s[i] == '+') then i + 1 else i;
    var k := if base == 16 && j + 2 < |s| && s[j] == '0' && (s[j + 1] == 'x' || s[j + 1] == 'X')
                && Digit(s[j + 2]) < 16
             then j + 2 else j;
    var e := DigitsEnd(s, k, base);
    if e == k then Number(0, 0, false)
    else
      var v := DigitsValue(s[k..e], base);
      if v > ULONG_MAX then Number(ULONG_MAX, e, true)
      else if negative && v > 0 then Number(ULONG_MAX + 1 - v, e, false)
      else Number(v, e, false)
  }

  /** White space and at most one sign in front of position k. */
  ghost predicate LeadIn(s: string, k: nat)
    requires k <= |s|
  {
    || (forall j :: 0 <= j < k ==> IsSpace(s[j]))
    || (k > 0 && (s[k - 1] == '+' || s[k - 1] == '-') && forall j :: 0 <= j < k - 1 ==> IsSpace(s[j]))
  }

  ghost predicate AllDigits(s: string, i: nat, j: nat)
    requires j <= |s|
  {
    forall k :: i <= k < j ==> '0' <= s[k] <= '9'
  }

  /** A whole text that is a decimal number, with its digits from k on. */
  ghost predicate NumberFrom(s: string, k: nat) {
    k < |s| && LeadIn(s, k) && AllDigits(s, k, |s|)
  }

  /** The digits of a number start in one place only. */
  lemma OneStart(text: string, j: nat, k: nat)
    requires j < |text| && k < |text| && LeadIn(text, j) && LeadIn(text, k)
    requires '0' <= text[j] <= '9' || text[j] == '.'
    requires '0' <= text[k] <= '9' || text[k] == '.'
    ensures j == k
  {
  }

  /** Where the scans for white space and for a sign stop. */
  lemma LeadInEnds(s: string, k: nat)
    requires k < |s| && LeadIn(s, k) && !IsSpace(s[k]) && s[k] != '+' && s[k] != '-'
    ensures var i := SkipSpace(s, 0);
            && i < |s| && (s[i] == '-' || s[i] == '+' <==> i + 1 == k) && (i == k || i + 1 == k)
  {
    var i := SkipSpace(s, 0);
    if forall j :: 0 <= j < k ==> IsSpace(s[j]) {
      assert i == k;
    } else {
      assert i == k - 1;
    }
  }

  /** strtoul reads every such text in full; "-" negates the 32-bit value. */
  lemma StrtoulOfNumber(s: string, k: nat)
    requires NumberFrom(s, k)
    ensures var v := DigitsValue(s[k..], 10);
            Strtoul(s, 10) == if v > ULONG_MAX then Number(ULONG_MAX, |s|, true)
                              else if k > 0 && s[k - 1] == '-' && v > 0 then Number(ULONG_MAX + 1 - v, |s|, false)
                              else Number(v, |s|, false)
  {
    LeadInEnds(s, k);
    assert DigitsEnd(s, k, 10) == |s| by {
      assert forall j :: k <= j < |s| ==> Digit(s[j]) < 10;
    }
    StrtoulScans(s, SkipSpace(s, 0), k, |s|);
    assert s[k..|s|] == s[k..];
  }

  /** What strtoul makes of the places where its three scans stop. */
  lemma StrtoulScans(s: string, i: nat, k: nat, e: nat)
    requires i <= k < e <= |s| && i == SkipSpace(s, 0) && e == DigitsEnd(s, k, 10)
    requires i == k || i + 1 == k
    requires s[i] == '-' || s[i] == '+' <==> i + 1 == k
    ensures var v := DigitsValue(s[k..e], 10);
            Strtoul(s, 10) == if v > ULONG_MAX then Number(ULONG_MAX, e, true)
                              else if i < k && s[i] == '-' && v > 0 then Number(ULONG_MAX + 1 - v, e, false)
                              else Number(v, e, false)
  {
  }

  /** ... and no other: what else a text may hold, strtoul stops in front of its end. */
  lemma StrtoulOfOther(s: string)
    requires s != [] && forall k: nat :: !NumberFrom(s, k)
    ensures Strtoul(s, 10).end != |s|
  {
    var i := SkipSpace(s, 0);
    var k := if i < |s| && (s[i] == '-' || s[i] == '+') then i + 1 else i;
    assert LeadIn(s, k);
    var e := DigitsEnd(s, k, 10);
    if e == |s| && k < e {
      assert forall j :: k <= j < |s| ==> Digit(s[j]) < 10;
      assert NumberFrom(s, k);
    }
  }

  /** Plain decimal digits are read in full. */
  lemma StrtoulOfDigits(s: string)
    requires s != [] && AllDigits(s, 0, |s|) && DigitsValue(s, 10) <= ULONG_MAX
    ensures Strtoul(s, 10) == Number(DigitsValue(s, 10), |s|, false)
  {
    assert s[0..] == s;
    StrtoulOfNumber(s, 0);
  }

  /** The "%lu" conversion. */
  function Decimal(n: nat): (s: string)
    ensures s != []
    ensures forall k :: 0 <= k < |s| ==> '0' <= s[k] <= '9'
  {
    if n < 10 then ["0123456789"[n]] else Decimal(n / 10) + ["0123456789"[n % 10]]
  }

  lemma {:induction false} DecimalValue(n: nat)
    ensures DigitsValue(Decimal(n), 10) == n
  {
    var s := Decimal(n);
    if n < 10 {
      assert s[..0] == [];
    } else {
      assert s[..|s| - 1] == Decimal(n / 10);
      DecimalValue(n / 10);
    }
  }

  /** Printing with "%lu" and reading back with strtoul is the identity on 32-bit values. */
  lemma DecimalRoundTrip(n: nat)
    requires n <= ULONG_MAX
    ensures Strtoul(Decimal(n), 10) == Number(n, |Decimal(n)|, false)
  {
    DecimalValue(n);
    StrtoulOfDigits(Decimal(n));
  }

  /** The "%ld" conversion. */
  function SignedDecimal(n: int): (s: string)
    ensures s != []
    ensures forall k :: 0 <= k < |s| ==> '0' <= s[k] <= '9' || s[k] == '-'
  {
    if n < 0 then "-" + Decimal(-n) else Decimal(n)
  }

  /** strtoul reads a negative number as its 32-bit pattern. */
  lemma SignedRoundTrip(n: int)
    requires -0x8000_0000 <= n < 0x8000_0000
    ensures Strtoul(SignedDecimal(n), 10)
            == Number(if n < 0 then n + 0x1_0000_0000 else n, |SignedDecimal(n)|, false)
  {
    if n < 0 {
      DecimalValue(-n);
      var s := SignedDecimal(n);
      assert s[1..] == Decimal(-n);
      StrtoulOfNumber(s, 1);
    } else {
      DecimalRoundTrip(n);
    }
  }

  // ---------------------------------------------------------------- tokenizer

  /** The number of leading commas. */
  function Commas(s: string): (i: nat)
    ensures i <= |s|
    ensures forall k :: 0 <= k < i ==> s[k] == ','
    ensures i < |s| ==> s[i] != ','
  {
    if s != [] && s[0] == ',' then 1 + Commas(s[1..]) else 0
  }

  /** The length of the leading comma-free part. */
  function TokenLength(s: string): (i: nat)
    ensures i <= |s|
    ensures forall k :: 0 <= k < i ==> s[k] != ','
    ensures i < |s| ==> s[i] == ','
  {
    if s == [] || s[0] == ',' then 0 else 1 + TokenLength(s[1..])
  }

  /** One call of strtok_r(.., ",", &save_ptr) on the text behind save_ptr: runs of commas
      collapse, and None is the NULL result. */
  datatype Token = Token(text: string, rest: string)

  function NextToken(s: string): (t: Option<Token>)
    ensures t.Some? ==> t.value.text != [] && ',' !in t.value.text && |t.value.rest| < |s|
    ensures t.None? <==> forall k :: 0 <= k < |s| ==> s[k] == ','
  {
    FirstToken(s[Commas(s)..])
  }

  function FirstToken(u: string): (t: Option<Token>)
    ensures t.None? <==> u == [] || u[0] == ','
    ensures t.Some? ==> t.value.text != [] && ',' !in t.value.text && |t.value.rest| < |u|
  {
    var n := TokenLength(u);
    if n == 0 then None else Some(Token(u[..n], if n < |u| then u[n + 1..] else []))
  }

  predicate CommaFree(s: string) {
    forall k :: 0 <= k < |s| ==> s[k] != ','
  }

  /** A comma-free text in front of a comma (or of the end) is the next token. */
  lemma NextTokenOf(text: string, tail: string)
    requires text != [] && CommaFree(text)
    requires tail == [] || tail[0] == ','
    ensures NextToken(text + tail) == Some(Token(text, if tail == [] then [] else tail[1..]))
  {
    var s := text + tail;
    assert s[0] == text[0];
    CommasAre(s, 0);
    assert s[0..] == s;
    assert forall k :: 0 <= k < |text| ==> s[k] == text[k];
    TokenLengthIs(s, |text|);
    assert s[..|text|] == text;
    if tail != [] {
      assert s[|text| + 1..] == tail[1..];
    }
  }

  /** Commas in front of the text make no difference. */
  lemma {:induction false} NextTokenSkipsComma(s: string)
    ensures NextToken("," + s) == NextToken(s)
  {
    var t := "," + s;
    assert t[1..] == s;
    assert Commas(t) == 1 + Commas(s);
    assert t[1 + Commas(s)..] == s[Commas(s)..];
  }

  lemma CommasAre(s: string, i: nat)
    requires i <= |s| && (forall k :: 0 <= k < i ==> s[k] == ',')
    requires i < |s| ==> s[i] != ','
    ensures Commas(s) == i
  {
  }

  lemma TokenLengthIs(s: string, i: nat)
    requires i <= |s| && (forall k :: 0 <= k < i ==> s[k] != ',')
    requires i < |s| ==> s[i] == ','
    ensures TokenLength(s) == i
  {
  }

  /** Where a token lies in a text, from the two positions the scan stops at. */
  lemma NextTokenAt(s: string, i: nat, j: nat, text: string, rest: string)
    requires i < j <= |s| && text == s[i..j] && rest == if j < |s| then s[j + 1..] else []
    requires forall k :: 0 <= k < i ==> s[k] == ','
    requires forall k :: i <= k < j ==> s[k] != ','
    requires j < |s| ==> s[j] == ','
    ensures NextToken(s) == Some(Token(text, rest))
  {
    CommasAre(s, i);
    var u := s[i..];
    TokenLengthIs(u, j - i);
    assert u[..j - i] == s[i..j];
    if j < |s| {
      assert u[j - i + 1..] == s[j + 1..];
    }
  }

  lemma SliceOfSlice(a: string, lo: nat, hi: nat, i: nat, j: nat)
    requires lo <= i <= j <= hi <= |a|
    ensures a[lo..hi][i - lo..j - lo] == a[i..j]
  {
    var l, r := a[lo..hi][i - lo..j - lo], a[i..j];
    assert forall k :: 0 <= k < |l| ==> l[k] == r[k];
  }

  /** The C string behind save_ptr ends at `z`. */
  ghost predicate EndsAt(a: string, save: nat, z: nat)
  {
    save <= z < |a| && a[z] == NUL && forall k :: save <= k < z ==> a[k] != NUL
  }

  /** The two scanning loops of strtok_r: over the delimiters, then over the token. */
  method ScanToken(buf: array<char>, save: nat, ghost z: nat) returns (i: nat, j: nat)
    requires EndsAt(buf[..], save, z)
    ensures save <= i <= j <= z
    ensures forall k :: save <= k < i ==> buf[k] == ','
    ensures forall k :: i <= k < j ==> buf[k] != ','
    ensures i == j ==> i == z
    ensures j < z ==> buf[j] == ','
  {
    i := save;
    while buf[i] == ','
      invariant save <= i <= z
      invariant forall k :: save <= k < i ==> buf[k] == ','
      decreases z - i
    {
      i := i + 1;
    }
    j := i;
    while buf[j] != NUL && buf[j] != ','
      invariant i <= j <= z
      invariant forall k :: i <= k < j ==> buf[k] != ','
      decreases z - j
    {
      j := j + 1;
    }
  }

  /** What one call of strtok_r does to a buffer `a` whose C string at `save` ends at `z`: the
      token is a[tok..end], scanning resumes at save', and only a[end] is overwritten. -1 stands
      for the NULL result. */
  ghost predicate StrtokEffect(a: string, save: nat, z: nat, tok: int, end: nat, save': nat)
    requires save <= z < |a|
  {
    if tok == -1 then
      save' == z && end == z && forall k :: save <= k < z ==> a[k] == ','
    else
      && save <= tok < end <= z
      && (forall k :: save <= k < tok ==> a[k] == ',')
      && (forall k :: tok <= k < end ==> a[k] != ',')
      && (if end < z then a[end] == ',' && save' == end + 1 else save' == z)
  }

  /** strtok_r itself. */
  method StrtokR(buf: array<char>, save: nat, ghost z: nat)
    returns (tok: int, save': nat, ghost end: nat)
    requires EndsAt(buf[..], save, z)
    modifies buf
    ensures StrtokEffect(old(buf[..]), save, z, tok, end, save')
    ensures end <= z && buf[..] == old(buf[..])[end := NUL]
  {
    var i, j := ScanToken(buf, save, z);
    if buf[i] == NUL {
      return -1, i, z;
    }
    tok, end := i, j;
    if buf[j] == NUL {
      save' := j;
    } else {
      buf[j] := NUL;
      save' := j + 1;
    }
  }

  /** The slices of `a` that a successful call delivers, as slices of the text it was given. */
  lemma TokenSlices(a: string, save: nat, z: nat, tok: nat, end: nat)
    requires save <= tok < end <= z <= |a|
    ensures a[save..z][tok - save..end - save] == a[tok..end]
    ensures end < z ==> a[save..z][end - save + 1..] == a[end + 1..z]
  {
    SliceOfSlice(a, save, z, tok, end);
    if end < z {
      SliceOfSlice(a, save, z, end + 1, z);
      assert a[save..z][end - save + 1..] == a[save..z][end + 1 - save..z - save];
    }
  }

  /** The token and the remaining text that a call of strtok_r delivers. */
  lemma StrtokDelivers(a: string, save: nat, z: nat, tok: int, end: nat, save': nat, s: string)
    requires EndsAt(a, save, z) && StrtokEffect(a, save, z, tok, end, save') && s == a[save..z]
    ensures tok == -1 <==> NextToken(s).None?
    ensures tok != -1 ==> NextToken(s) == Some(Token(a[tok..end], a[save'..z]))
  {
    if tok == -1 {
      assert forall k :: 0 <= k < |s| ==> s[k] == ',';
    } else {
      TokenSlices(a, save, z, tok, end);
      assert end == z ==> a[save'..z] == [];
      NextTokenAt(s, tok - save, end - save, a[tok..end], a[save'..z]);
    }
  }

  // ---------------------------------------------------------------- formatting

  /** snprintf(&buf[off], size, ..) for a conversion that yields `text`: at most size - 1 characters
      and a NUL are written, and the length of the whole text is returned. */
  method Snprintf(buf: array<char>, off: nat, size: nat, text: string) returns (n: nat)
    requires size > 0 && off + size <= buf.Length
    modifies buf
    ensures n == |text|
    ensures forall k :: 0 <= k < buf.Length && !(off <= k < off + size) ==> buf[k] == old(buf[k])
    ensures |text| < size ==> buf[off..off + |text|] == text
  {
    var i := 0;
    while i < |text| && i + 1 < size
      invariant i <= |text| && i < size
      invariant forall k :: 0 <= k < buf.Length && !(off <= k < off + size) ==> buf[k] == old(buf[k])
      invariant buf[off..off + i] == text[..i]
    {
      buf[off + i] := text[i];
      i := i + 1;
    }
    buf[off + i] := NUL;
    n := |text|;
  }
}
