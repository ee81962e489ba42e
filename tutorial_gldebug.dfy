/**
 * opengl_go_tutorial/gldebug.go: `goString` and the info-log readers that
 * call it only when OpenGL reports a positive log length.
 */
module TutorialGlDebug {
  import opened Wrappers
  import opened GoTypes
  import opened GlStrings

  const NotTerminated := "buf is not NUL-terminated: this is what we got: "

  /**
   * `goString`: the bytes before the first 0 byte.  A buffer without a 0
   * byte, the empty one included, panics with a message that dumps it in hex.
   */
  function GoString(buf: Bytes): (r: Result<Bytes, string>)
    ensures r.Ok? <==> 0 in buf
    ensures r.Ok? ==>
      && |r.value| < |buf|
      && r.value == buf[..|r.value|]
      && buf[|r.value|] == 0
      && 0 !in r.value
    ensures r.Err? ==> r.error == NotTerminated + HexUpper(buf)
  {
    var i := NulIndex(buf);
    if i < |buf| then Ok(buf[..i]) else Err(NotTerminated + HexUpper(buf))
  }

  /** A buffer that starts with its terminator converts to the empty string. */
  lemma GoStringOfLeadingNul(rest: Bytes)
    ensures GoString([0] + rest) == Ok([])
  {
  }

  /**
   * The body `shaderLog` and `programLog` share: allocate `length` zero bytes
   * only when `length > 0`, let OpenGL write `written` into them, and convert;
   * otherwise return "" without calling `goString`.
   */
  method ReadInfoLog(length: int32, written: Bytes) returns (r: Result<Bytes, string>)
    ensures length <= 0 ==> r == Ok([])
    ensures length > 0 ==> r == GoString(InfoLogBuffer(length as nat, written))
  {
    if length > 0 {
      var msg := new uint8[length as nat](_ => 0);
      WriteInfoLog(msg, written);
      r := GoString(msg[..]);
      return;
    }
    r := Ok([]);
  }

  /** `shaderLog`, given the INFO_LOG_LENGTH OpenGL reports and the bytes it writes. */
  method ShaderLog(length: int32, written: Bytes) returns (r: Result<Bytes, string>)
    ensures length <= 0 ==> r == Ok([])
    ensures length > 0 ==> r == GoString(InfoLogBuffer(length as nat, written))
  {
    r := ReadInfoLog(length, written);
  }

  /** `programLog`: the same steps as `shaderLog`, for a program object. */
  method ProgramLog(length: int32, written: Bytes) returns (r: Result<Bytes, string>)
    ensures length <= 0 ==> r == Ok([])
    ensures length > 0 ==> r == GoString(InfoLogBuffer(length as nat, written))
  {
    r := ReadInfoLog(length, written);
  }

  /**
   * When OpenGL writes a NUL-terminated log that fits the reported length,
   * the log is the written bytes up to their terminator.
   */
  lemma InfoLogOfTerminatedWrite(length: int32, written: Bytes)
    requires 0 < length && |written| <= length as int && 0 in written
    ensures GoString(InfoLogBuffer(length as nat, written)) == Ok(written[..NulIndex(written)])
  {
    InfoLogBufferKeepsTerminatedWrite(length as nat, written);
  }

  /** A write shorter than the reported length leaves a 0 byte, so the conversion cannot panic. */
  lemma InfoLogOfShortWriteNeverPanics(length: int32, written: Bytes)
    requires |written| < length as int
    ensures GoString(InfoLogBuffer(length as nat, written)).Ok?
  {
    assert InfoLogBuffer(length as nat, written)[|written|] == 0;
  }
}
