/**
 * Pieces shared by the two copies of gldebug.go: the search for the NUL that
 * ends a C string written by OpenGL, the buffer the GL info-log calls leave
 * behind, and `fmt`'s `%X` rendering of a byte slice.
 */
module GlStrings {
  import opened GoTypes

  /** Index of the first 0 byte, or `|buf|` when there is none. */
  function NulIndex(buf: Bytes): (i: nat)
    ensures i <= |buf|
    ensures forall j :: 0 <= j < i ==> buf[j] != 0
    ensures i < |buf| ==> buf[i] == 0
  {
    if buf == [] || buf[0] == 0 then 0 else 1 + NulIndex(buf[1..])
  }

  /** Two buffers that agree up to a 0 byte of the first have their first 0 byte at the same place. */
  lemma NulIndexOfExtension(buf: Bytes, longer: Bytes)
    requires |buf| <= |longer| && longer[..|buf|] == buf && 0 in buf
    ensures NulIndex(longer) == NulIndex(buf)
  {
  }

  /**
   * The `n`-byte buffer `make([]uint8, n)` allocates, after a GL info-log
   * call has written `written` into it: the call writes at most `n` bytes and
   * the rest keep Go's zero value.
   */
  function InfoLogBuffer(n: nat, written: Bytes): (buf: Bytes)
    ensures |buf| == n
    ensures forall j :: 0 <= j < n ==> buf[j] == if j < |written| then written[j] else 0
  {
    seq(n, j requires 0 <= j < n => if j < |written| then written[j] else 0)
  }

  /** A NUL-terminated write that fits the buffer is read back up to its terminator. */
  lemma InfoLogBufferKeepsTerminatedWrite(n: nat, written: Bytes)
    requires |written| <= n && 0 in written
    ensures NulIndex(InfoLogBuffer(n, written)) == NulIndex(written) < |written|
    ensures InfoLogBuffer(n, written)[..NulIndex(written)] == written[..NulIndex(written)]
  {
    var buf := InfoLogBuffer(n, written);
    assert buf[..|written|] == written by {
      forall j | 0 <= j < |written| ensures buf[j] == written[j] { }
    }
    NulIndexOfExtension(written, buf);
    var k := NulIndex(written);
    assert buf[..k] == buf[..|written|][..k];
  }

  /**
   * What the GL call does to the zeroed buffer: copy `written`, cut to the
   * buffer's length.
   */
  method WriteInfoLog(msg: array<uint8>, written: Bytes)
    requires forall j :: 0 <= j < msg.Length ==> msg[j] == 0
    modifies msg
    ensures msg[..] == InfoLogBuffer(msg.Length, written)
  {
    var j := 0;
    while j < msg.Length && j < |written|
      invariant 0 <= j <= msg.Length && j <= |written|
      invariant forall k :: 0 <= k < msg.Length ==> msg[k] == if k < j then written[k] else 0
    {
      msg[j] := written[j];
      j := j + 1;
    }
    assert forall k :: 0 <= k < msg.Length ==> msg[..][k] == InfoLogBuffer(msg.Length, written)[k];
  }

  /** An upper-case hexadecimal digit. */
  predicate IsHexDigit(c: char)
  {
    '0' <= c <= '9' || 'A' <= c <= 'F'
  }

  /** The upper-case hex digit for a nibble. */
  function HexDigit(d: nat): (c: char)
    requires d < 16
    ensures IsHexDigit(c)
  {
    if d < 10 then ('0' as int + d) as char else ('A' as int + d - 10) as char
  }

  /** `fmt.Sprintf("%X", buf)` for a byte slice: two upper-case hex digits per byte. */
  function HexUpper(buf: Bytes): (s: string)
    ensures |s| == 2 * |buf|
    ensures forall k :: 0 <= k < |s| ==> IsHexDigit(s[k])
    ensures forall i :: 0 <= i < |buf| ==>
      s[2 * i] == HexDigit(buf[i] as nat / 16) && s[2 * i + 1] == HexDigit(buf[i] as nat % 16)
  {
    if buf == [] then ""
    else
      var rest := HexUpper(buf[1..]);
      assert forall i :: 1 <= i < |buf| ==> buf[1..][i - 1] == buf[i];
      [HexDigit(buf[0] as nat / 16), HexDigit(buf[0] as nat % 16)] + rest
  }
}
