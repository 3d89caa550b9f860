/** Formatting into a caller's C string buffer, and reading it back
    (rust/src/bindings/message_dispatcher.rs, CStrWriter and cstr_ptr_to_str_slice;
    rust/src/meteo/mod.rs, std_response_serialize). */
module CStrWriter {

  import CText

  class CStrWriter {
    const buf: array<char>
    var pos: nat

    constructor (buf: array<char>)
      requires buf.Length > 0
      modifies buf
      ensures this.buf == buf && Valid() && Text() == []
    {
      this.buf, pos := buf, 0;
      new;
      buf[0] := CText.NUL;
    }

    /** The text is terminated inside the buffer. */
    ghost predicate Valid()
      reads this, buf
    {
      pos < buf.Length && buf[pos] == CText.NUL
    }

    function Text(): string
      requires pos <= buf.Length
      reads this, buf
    {
      buf[..pos]
    }

    /** write_str: all of `s` or nothing. */
    method WriteStr(s: string) returns (ok: bool)
      requires Valid()
      modifies this`pos, buf
      ensures Valid() && ok == (old(|Text()|) + |s| < buf.Length)
      ensures Text() == if ok then old(Text()) + s else old(Text())
    {
      if |s| + 1 > buf.Length - pos {
        return false;
      }
      for i := 0 to |s|
        invariant pos == old(pos) && buf[..pos + i] == old(Text()) + s[..i]
      {
        buf[pos + i] := s[i];
      }
      assert s[..|s|] == s;
      pos := pos + |s|;
      buf[pos] := CText.NUL;
      return true;
    }
  }

  /** cstr_ptr_to_str_slice, without the UTF-8 check: the scan for the terminator. */
  method ReadBack(buf: array<char>) returns (s: string)
    requires exists z :: 0 <= z < buf.Length && buf[z] == CText.NUL
    ensures s == CText.CStr(buf[..])
  {
    var len := 0;
    while buf[len] != CText.NUL
      invariant len < buf.Length && forall k :: 0 <= k < len ==> buf[k] != CText.NUL
      decreases buf.Length - len
    {
      len := len + 1;
    }
    CText.CStrBeforeNul(buf[..], len);
    return buf[..len];
  }

  /** What was written is what a reader of the C string finds, as long as it holds no NUL itself. */
  lemma WrittenIsRead(buf: string, pos: nat)
    requires pos < |buf| && buf[pos] == CText.NUL && CText.NulFree(buf[..pos])
    ensures CText.CStr(buf) == buf[..pos]
  {
    assert forall k :: 0 <= k < pos ==> buf[k] == buf[..pos][k];
    CText.CStrBeforeNul(buf, pos);
  }

  function Concat(parts: seq<string>): string {
    if parts == [] then [] else Concat(parts[..|parts| - 1]) + parts[|parts| - 1]
  }

  lemma {:induction false} ConcatGrows(parts: seq<string>, k: nat)
    requires k <= |parts|
    ensures |Concat(parts[..k])| <= |Concat(parts)|
  {
    var n := |parts| - 1;
    if k <= n {
      assert parts[..n][..k] == parts[..k];
      ConcatGrows(parts[..n], k);
    } else {
      assert parts[..k] == parts;
    }
  }

  /** write!(w, ..): the pieces of a format string, up to the first one that does not fit. The result
      is the length of the whole text, or -1 when it does not fit with its terminator; the buffer is
      a terminated string either way. */
  method WriteAll(buf: array<char>, parts: seq<string>) returns (r: int)
    requires buf.Length > 0
    modifies buf
    ensures var text := Concat(parts);
            if |text| < buf.Length then r == |text| && buf[..r] == text && buf[r] == CText.NUL else r == -1
    ensures exists z :: 0 <= z < buf.Length && buf[z] == CText.NUL
  {
    var w := new CStrWriter(buf);
    for i := 0 to |parts|
      invariant w.buf == buf && w.Valid() && w.Text() == Concat(parts[..i])
    {
      assert parts[..i + 1][..i] == parts[..i];
      ConcatGrows(parts, i + 1);
      var ok := w.WriteStr(parts[i]);
      if !ok {
        return -1;
      }
    }
    assert parts[..|parts|] == parts;
    return w.pos;
  }
}
