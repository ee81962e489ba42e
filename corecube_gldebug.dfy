/**
 * corecube/gldebug.go: the same `goString`, but the info-log readers call it
 * whatever length OpenGL reports, so a zero length converts a nil buffer.
 */
module CorecubeGlDebug {
  import opened Wrappers
  import opened GoTypes
  import opened GlStrings
  import TutorialGlDebug

  const NotTerminated := "buf is not NUL-terminated"

  /** `goString`: the bytes before the first 0 byte; without a 0 byte it panics. */
  function GoString(buf: Bytes): (r: Result<Bytes, string>)
    ensures r.Ok? <==> 0 in buf
    ensures r.Ok? ==>
      && |r.value| < |buf|
      && r.value == buf[..|r.value|]
      && buf[|r.value|] == 0
      && 0 !in r.value
    ensures r.Err? ==> r.error == NotTerminated
  {
    var i := NulIndex(buf);
    if i < |buf| then Ok(buf[..i]) else Err(NotTerminated)
  }

  /**
   * The body `shaderLog` and `programLog` share, as written: the buffer stays
   * nil unless `length > 0`, and `goString` is called on it either way.
   */
  method ReadInfoLog(length: int32, written: Bytes) returns (r: Result<Bytes, string>)
    ensures length <= 0 ==> r == Err(NotTerminated)
    ensures length > 0 ==> r == GoString(InfoLogBuffer(length as nat, written))
  {
    var msg: Bytes := [];
    if length > 0 {
      var buf := new uint8[length as nat](_ => 0);
      WriteInfoLog(buf, written);
      msg := buf[..];
    }
    r := GoString(msg);
  }

  /** `shaderLog`: a zero log length panics; a positive one converts the filled buffer. */
  method ShaderLog(length: int32, written: Bytes) returns (r: Result<Bytes, string>)
    ensures length <= 0 ==> r == Err(NotTerminated)
    ensures length > 0 ==> r == GoString(InfoLogBuffer(length as nat, written))
  {
    r := ReadInfoLog(length, written);
  }

  /** `programLog`: the same steps as `shaderLog`, for a program object. */
  method ProgramLog(length: int32, written: Bytes) returns (r: Result<Bytes, string>)
    ensures length <= 0 ==> r == Err(NotTerminated)
    ensures length > 0 ==> r == GoString(InfoLogBuffer(length as nat, written))
  {
    r := ReadInfoLog(length, written);
  }

  /**
   * The two copies of `goString` agree wherever neither panics, so the
   * copies of the info-log readers differ only for lengths that are not positive.
   */
  lemma GoStringCopiesAgree(buf: Bytes)
    requires 0 in buf
    ensures GoString(buf) == TutorialGlDebug.GoString(buf)
  {
  }
}
