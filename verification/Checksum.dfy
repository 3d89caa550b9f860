/** The XOR checksum of a message body and its two-digit hexadecimal form
    (src/message_dispatcher.c, calc_checksum). */
module Checksum {

  /** The cast to uint8_t that calc_checksum applies to each character. */
  function Byte(c: char): bv8 {
    (c as int % 256) as bv8
  }

  function Sum(s: string): bv8 {
    if s == [] then 0 else Sum(s[..|s| - 1]) ^ Byte(s[|s| - 1])
  }

  /** calc_checksum: the loop over the first `len` characters of a buffer. */
  method Calc(buffer: array<char>, start: nat, len: nat) returns (checksum: bv8)
    requires start + len <= buffer.Length
    ensures checksum == Sum(buffer[start..start + len])
  {
    checksum := 0;
    for i := 0 to len
      invariant checksum == Sum(buffer[start..start + i])
    {
      assert buffer[start..start + i + 1][..i] == buffer[start..start + i];
      checksum := checksum ^ Byte(buffer[start + i]);
    }
  }

  lemma {:induction false} SumOfConcat(a: string, b: string)
    ensures Sum(a + b) == Sum(a) ^ Sum(b)
  {
    if b == [] {
      assert a + b == a;
    } else {
      var n := |b| - 1;
      assert (a + b)[..|a + b| - 1] == a + b[..n];
      SumOfConcat(a, b[..n]);
    }
  }

  /** Replacing one character changes the checksum by exactly the difference of the two. */
  lemma {:induction false} SumOfReplacement(s: string, i: nat, x: char)
    requires i < |s|
    ensures Sum(s[i := x]) == Sum(s) ^ Byte(s[i]) ^ Byte(x)
  {
    var n := |s| - 1;
    if i == n {
      assert s[i := x][..n] == s[..n];
    } else {
      SumOfReplacement(s[..n], i, x);
      assert s[i := x][..n] == s[..n][i := x];
    }
  }

  /** So a single wrong byte is always seen. */
  lemma ReplacementIsSeen(s: string, i: nat, x: char)
    requires i < |s|
    ensures Sum(s[i := x]) == Sum(s) <==> Byte(x) == Byte(s[i])
  {
    SumOfReplacement(s, i, x);
    XorCancels(Sum(s), Byte(s[i]), Byte(x));
  }

  lemma XorCancels(c: bv8, p: bv8, q: bv8)
    ensures c ^ p ^ q == c <==> q == p
  {
  }

  /** A character is its own byte, with all its eight bits. */
  lemma SumOfOne(c: char)
    requires c as int < 256
    ensures Sum([c]) as int == c as int
  {
    assert [c][..0] == [];
    ByteIs(c);
    XorWithZero(Byte(c));
  }

  lemma ByteIs(c: char)
    requires c as int < 256
    ensures Byte(c) as int == c as int
  {
  }

  lemma XorWithZero(b: bv8)
    ensures 0 ^ b == b
  {
  }

  /** The same for characters: no two different ones are taken for each other. */
  lemma DifferenceIsSeen(s: string, i: nat, x: char)
    requires i < |s| && x != s[i] && x as int < 256 && s[i] as int < 256
    ensures Sum(s[i := x]) != Sum(s)
  {
    BytesDiffer(x, s[i]);
    ReplacementIsSeen(s, i, x);
  }

  lemma BytesDiffer(c: char, d: char)
    requires c as int < 256 && d as int < 256 && c != d
    ensures Byte(c) != Byte(d)
  {
    ByteIs(c);
    ByteIs(d);
  }

  /** ... while no reordering of the bytes ever is: the checksum is a function of the bag of bytes. */
  lemma {:induction false} ReorderingIsNotSeen(s: string, t: string)
    requires multiset(s) == multiset(t)
    ensures Sum(s) == Sum(t)
  {
    if s == [] {
      assert |multiset(t)| == 0;
    } else {
      var n := |s| - 1;
      assert s == s[..n] + [s[n]];
      assert s[n] in multiset(s);
      var k :| 0 <= k < |t| && t[k] == s[n];
      var u := t[..k] + t[k + 1..];
      assert t == t[..k] + [t[k]] + t[k + 1..];
      assert multiset(u) == multiset(t) - multiset{t[k]};
      assert multiset(s[..n]) == multiset(s) - multiset{s[n]};
      ReorderingIsNotSeen(s[..n], u);
      SumWithout(t[..k], t[k], t[k + 1..], t);
    }
  }

  lemma SumWithout(head: string, c: char, tail: string, s: string)
    requires s == head + [c] + tail
    ensures Sum(s) == Sum(head + tail) ^ Byte(c)
  {
    SumOfConcat(head, tail);
    SumOfConcat(head, [c]);
    SumOfConcat(head + [c], tail);
    assert [c][..0] == [];
  }

  function HexDigit(d: nat): (c: char)
    requires d < 16
  {
    "0123456789ABCDEF"[d]
  }

  /** The "%02X" conversion of a byte. */
  function Hex2(b: bv8): (s: string)
    ensures |s| == 2
  {
    [HexDigit(b as int / 16), HexDigit(b as int % 16)]
  }

  /** One character more in a sum. */
  lemma SumNext(s: string, sum: bv8, c: char, b: bv8, t: string)
    requires Sum(s) == sum && Byte(c) == b && t == s + [c]
    ensures Sum(t) == sum ^ b
  {
    assert t[..|s|] == s;
  }

  lemma OneAndTwo()
    ensures Byte('1') == 0x31 && Byte('2') == 0x32
  {
  }

  lemma ThreeAndFour()
    ensures Byte('3') == 0x33 && Byte('4') == 0x34
  {
  }

  lemma Five()
    ensures Byte('5') == 0x35
  {
  }

  lemma Comma()
    ensures Byte(',') == 0x2C
  {
  }

  /** The checksum of a body from the dispatcher's own tests. */
  lemma KnownSum()
    ensures Sum("12345,") == 0x1D && Hex2(0x1D) == "1D"
  {
    OneAndTwo();
    ThreeAndFour();
    Five();
    Comma();
    SumNext("", 0, '1', 0x31, "1");
    SumNext("1", 0x31, '2', 0x32, "12");
    SumNext("12", 0x03, '3', 0x33, "123");
    SumNext("123", 0x30, '4', 0x34, "1234");
    SumNext("1234", 0x04, '5', 0x35, "12345");
    SumNext("12345", 0x31, ',', 0x2C, "12345,");
  }
}
