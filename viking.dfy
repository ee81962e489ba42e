/**
 * viking-gl-tutorial/main.go: the part of `createTexture` that turns a
 * decoded image's top-down rows into the bottom-up rows OpenGL expects, its
 * error paths, and the `handleKey` keyboard callback.
 */
module Viking {
  import opened Wrappers
  import opened GoTypes

  /** What `copy` leaves in an `n`-byte zeroed destination: at most `n` bytes of `row`, then zeros. */
  function Fit(row: Bytes, n: nat): (r: Bytes)
    ensures |r| == n
    ensures forall j :: 0 <= j < n ==> r[j] == if j < |row| then row[j] else 0
  {
    if |row| >= n then row[..n] else row + Zeros(n - |row|)
  }

  /** The bytes taken by `count` rows of `size` bytes: `count * size`, defined by addition. */
  function Span(count: nat, size: nat): nat
  {
    if count == 0 then 0 else Span(count - 1, size) + size
  }

  lemma {:induction false} SpanIsProduct(count: nat, size: nat)
    ensures Span(count, size) == count * size
  {
    if count > 0 {
      SpanIsProduct(count - 1, size);
    }
  }

  /** Rows of zero bytes take no bytes, however many there are. */
  lemma {:induction false} SpanOfEmptyRows(count: nat)
    ensures Span(count, 0) == 0
  {
    if count > 0 {
      SpanOfEmptyRows(count - 1);
    }
  }

  /** Row `a` ends no later than `c` rows do, when `a < c`. */
  lemma {:induction false} SpanBefore(a: nat, c: nat, size: nat)
    requires a < c
    ensures Span(a, size) + size <= Span(c, size)
  {
    if a + 1 < c {
      SpanBefore(a, c - 1, size);
    }
  }

  /**
   * The first `count` rows of a top-down pixel buffer with `stride` bytes per
   * row, laid out bottom row first, each cut or zero-padded to `lineLen` bytes.
   */
  function BottomUp(pix: Bytes, stride: nat, count: nat, lineLen: nat): (data: Bytes)
    requires Span(count, stride) <= |pix|
    ensures |data| == Span(count, lineLen)
    decreases count
  {
    if count == 0 then []
    else Fit(pix[Span(count - 1, stride) .. Span(count, stride)], lineLen) + BottomUp(pix, stride, count - 1, lineLen)
  }

  /** Reference definition of the buffer `createTexture` uploads for an NRGBA image. */
  function Flipped(width: nat, height: nat, stride: nat, pix: Bytes): Bytes
    requires |pix| == height * stride
  {
    SpanIsProduct(height, stride);
    BottomUp(pix, stride, height, width * 4)
  }

  /** The uploaded buffer has exactly `width * height * 4` bytes, the size `make` gave it. */
  lemma FlippedLength(width: nat, height: nat, stride: nat, pix: Bytes)
    requires |pix| == height * stride
    ensures |Flipped(width, height, stride, pix)| == width * height * 4
  {
    SpanIsProduct(height, width * 4);
    assert height * (width * 4) == width * height * 4;
  }

  /** A slice that starts past `a` in `a + b` is a slice of `b`. */
  lemma SliceAfterPrefix(a: Bytes, b: Bytes, from: nat, len: nat)
    requires |a| <= from && from + len <= |a| + |b|
    ensures (a + b)[from .. from + len] == b[from - |a| .. from - |a| + len]
  {
  }

  /**
   * Destination line `d` of the bottom-up layout, the bytes from `at`, holds
   * source row `k = count - 1 - d`, the bytes from `from`.
   */
  lemma {:induction false} BottomUpAt(pix: Bytes, stride: nat, count: nat, lineLen: nat,
                                      d: nat, k: nat, at: nat, from: nat)
    requires Span(count, stride) <= |pix| && d < count && k == count - 1 - d
    requires at == Span(d, lineLen) && from == Span(k, stride)
    ensures from + stride <= |pix|
    ensures at + lineLen <= Span(count, lineLen)
    ensures BottomUp(pix, stride, count, lineLen)[at .. at + lineLen] == Fit(pix[from .. from + stride], lineLen)
  {
    SpanBefore(d, count, lineLen);
    SpanBefore(k, count, stride);
    var top := Fit(pix[Span(count - 1, stride) .. Span(count, stride)], lineLen);
    var rest := BottomUp(pix, stride, count - 1, lineLen);
    assert BottomUp(pix, stride, count, lineLen) == top + rest;
    if d > 0 {
      BottomUpAt(pix, stride, count - 1, lineLen, d - 1, k, at - lineLen, from);
      SliceAfterPrefix(top, rest, at, lineLen);
    } else {
      assert (top + rest)[0 .. lineLen] == top;
    }
  }

  /**
   * Source row `k` of an NRGBA image lands in destination row
   * `d = height - 1 - k`, its bytes in their order, cut to `lineLen = width * 4`
   * bytes or padded with zeros.  With `k = 0`: the first source row is the last
   * destination row.
   */
  lemma FlippedRowAt(width: nat, height: nat, stride: nat, pix: Bytes, k: nat, lineLen: nat, d: nat)
    requires |pix| == height * stride && k < height
    requires lineLen == width * 4 && d == height - 1 - k
    ensures k * stride + stride <= |pix|
    ensures d * lineLen + lineLen <= |Flipped(width, height, stride, pix)|
    ensures Flipped(width, height, stride, pix)[d * lineLen .. d * lineLen + lineLen]
         == Fit(pix[k * stride .. k * stride + stride], lineLen)
  {
    SpanIsProduct(height, stride);
    SpanIsProduct(k, stride);
    SpanIsProduct(d, lineLen);
    var at, from := d * lineLen, k * stride;
    BottomUpAt(pix, stride, height, lineLen, d, k, at, from);
    assert Flipped(width, height, stride, pix) == BottomUp(pix, stride, height, lineLen);
  }

  lemma {:induction false} ZerosAppend(a: nat, b: nat)
    ensures Zeros(a) + Zeros(b) == Zeros(a + b)
  {
  }

  /** With a zero stride every source row is empty, so the upload is all zeros. */
  lemma {:induction false} BottomUpOfEmptyRows(pix: Bytes, count: nat, lineLen: nat)
    ensures Span(count, 0) == 0
    ensures BottomUp(pix, 0, count, lineLen) == Zeros(Span(count, lineLen))
  {
    SpanOfEmptyRows(count);
    if count > 0 {
      BottomUpOfEmptyRows(pix, count - 1, lineLen);
      SpanOfEmptyRows(count - 1);
      assert pix[0..0] == [];
      assert Fit([], lineLen) == Zeros(lineLen);
      ZerosAppend(lineLen, Span(count - 1, lineLen));
    }
  }

  /**
   * Go's `copy(data[dest:dest+lineLen], row)`: copies as many bytes as both
   * slices hold, returns that count, and leaves every other byte alone.
   */
  method CopyRow(data: array<uint8>, dest: nat, lineLen: nat, row: Bytes) returns (copied: nat)
    requires dest + lineLen <= data.Length
    modifies data
    ensures copied == if |row| < lineLen then |row| else lineLen
    ensures data[..] == old(data[..])[..dest] + row[..copied] + old(data[..])[dest + copied..]
  {
    copied := if |row| < lineLen then |row| else lineLen;
    var j := 0;
    while j < copied
      invariant 0 <= j <= copied
      invariant forall i :: 0 <= i < data.Length && !(dest <= i < dest + j) ==> data[i] == old(data[i])
      invariant forall i :: dest <= i < dest + j ==> data[i] == row[i - dest]
    {
      data[dest + j] := row[j];
      j := j + 1;
    }
    assert data[..] == old(data[..])[..dest] + row[..copied] + old(data[..])[dest + copied..];
  }

  /**
   * The buffer `createTexture` fills for an NRGBA image (lines 86-94): a
   * zeroed `width * height * 4`-byte slice, then the flip loop.  Indices stay
   * in bounds because the image holds exactly `height` rows of `stride`
   * bytes, as an NRGBA image from `png.Decode` does.
   */
  method FlipImage(width: nat, height: nat, stride: nat, pix: Bytes) returns (data: array<uint8>)
    requires |pix| == height * stride
    ensures data[..] == Flipped(width, height, stride, pix)
  {
    var lineLen := width * 4;
    FlipSizes(width, height, stride, pix);
    data := new uint8[width * height * 4](_ => 0);
    assert data[..] == Zeros(data.Length);
    FlipRows(data, pix, stride, height, lineLen);
  }

  /**
   * The flip loop: `src` walks the source rows top-down by `stride` while
   * `dest` walks the destination bottom-up by `lineLen`, copying one row per
   * pass.
   */
  method FlipRows(data: array<uint8>, pix: Bytes, stride: nat, height: nat, lineLen: nat)
    requires |pix| == Span(height, stride) && data.Length == Span(height, lineLen)
    requires data[..] == Zeros(data.Length)
    modifies data
    ensures data[..] == BottomUp(pix, stride, height, lineLen)
  {
    var dest: int := data.Length - lineLen;
    var src := 0;
    ghost var t: nat := 0;
    FlipStart(pix, stride, lineLen, data.Length);
    while src < |pix|
      invariant t <= height && src == Span(t, stride) && src <= |pix|
      invariant stride == 0 ==> t == 0
      invariant dest + lineLen == Span(height - t, lineLen) <= data.Length
      invariant data[..] == Zeros(dest + lineLen) + BottomUp(pix, stride, t, lineLen)
      decreases |pix| - src
    {
      FlipInBounds(height, stride, lineLen, t, |pix|);
      var nextSrc := src + stride;
      var nextDest := dest - lineLen;
      CopyLine(data, pix, stride, lineLen, t, src, dest, t + 1, nextDest + lineLen);
      src, dest, t := nextSrc, nextDest, t + 1;
    }
    FlipEnd(height, stride, pix, lineLen, t, src, dest + lineLen);
  }

  /**
   * One pass of the flip loop, `copy(data[dest:dest+lineLen], Pix[src:src+Stride])`:
   * source row `t` fills the zeroed line just above the rows placed so far.
   */
  method CopyLine(data: array<uint8>, pix: Bytes, stride: nat, lineLen: nat, ghost t: nat, src: nat, dest: nat,
                  ghost nextT: nat, ghost nextLeft: nat)
    requires src == Span(t, stride) && src + stride <= |pix|
    requires data[..] == Zeros(dest + lineLen) + BottomUp(pix, stride, t, lineLen)
    requires nextT == t + 1 && nextLeft == dest
    modifies data
    ensures src + stride == Span(nextT, stride)
    ensures data[..] == Zeros(nextLeft) + BottomUp(pix, stride, nextT, lineLen)
  {
    ghost var before := data[..];
    ghost var rest := BottomUp(pix, stride, t, lineLen);
    var row := pix[src..src + stride];
    var copied := CopyRow(data, dest, lineLen, row);
    PlaceRow(before, data[..], dest, lineLen, row, copied, rest);
    FlipStep(pix, stride, t, src, lineLen, dest, data[..], nextT, nextLeft);
  }

  /** The sizes `createTexture` works with, in rows: `|Pix| = height * stride`, `width * height * 4` output bytes. */
  lemma FlipSizes(width: nat, height: nat, stride: nat, pix: Bytes)
    requires |pix| == height * stride
    ensures |pix| == Span(height, stride)
    ensures width * height * 4 == Span(height, width * 4)
  {
    SpanIsProduct(height, stride);
    SpanIsProduct(height, width * 4);
    assert width * height * 4 == height * (width * 4);
  }

  /** Before the first pass no row has been placed and the whole buffer is zero. */
  lemma FlipStart(pix: Bytes, stride: nat, lineLen: nat, size: nat)
    ensures Zeros(size) == Zeros(size) + BottomUp(pix, stride, 0, lineLen)
  {
    assert BottomUp(pix, stride, 0, lineLen) == [];
  }

  /** While source bytes remain, a whole source row and a whole destination line remain. */
  lemma FlipInBounds(height: nat, stride: nat, lineLen: nat, t: nat, size: nat)
    requires size == Span(height, stride) && Span(t, stride) < size && t <= height
    requires stride == 0 ==> t == 0
    ensures 0 < stride && t < height && Span(t, stride) + stride <= size
    ensures lineLen <= Span(height - t, lineLen)
  {
    if stride == 0 {
      SpanOfEmptyRows(height);
    }
    assert t != height;
    SpanBefore(t, height, stride);
    SpanBefore(0, height - t, lineLen);
  }

  /** One pass of the flip loop: with source row `t` placed, `t + 1` rows are in bottom-up order. */
  lemma FlipStep(pix: Bytes, stride: nat, t: nat, src: nat, lineLen: nat, dest: nat,
                 placed: Bytes, nextT: nat, nextLeft: nat)
    requires src == Span(t, stride) && src + stride <= |pix|
    requires placed == Zeros(dest) + Fit(pix[src..src + stride], lineLen) + BottomUp(pix, stride, t, lineLen)
    requires nextT == t + 1 && nextLeft == dest
    ensures src + stride == Span(nextT, stride)
    ensures placed == Zeros(nextLeft) + BottomUp(pix, stride, nextT, lineLen)
  {
    BottomUpSnoc(pix, stride, t, src, lineLen);
    AppendAssoc(Zeros(dest), Fit(pix[src..src + stride], lineLen), BottomUp(pix, stride, t, lineLen));
  }

  /** Placing one more source row puts it in front of the lines placed so far. */
  lemma BottomUpSnoc(pix: Bytes, stride: nat, t: nat, src: nat, lineLen: nat)
    requires src == Span(t, stride) && src + stride <= |pix|
    ensures Span(t + 1, stride) == src + stride
    ensures BottomUp(pix, stride, t + 1, lineLen) == Fit(pix[src..src + stride], lineLen) + BottomUp(pix, stride, t, lineLen)
  {
  }

  lemma AppendAssoc(a: Bytes, b: Bytes, c: Bytes)
    ensures a + b + c == a + (b + c)
  {
  }

  /** When the loop stops every source row has been placed, or there were no source bytes at all. */
  lemma FlipEnd(height: nat, stride: nat, pix: Bytes, lineLen: nat, t: nat, src: nat, left: nat)
    requires |pix| == Span(height, stride)
    requires t <= height && src == Span(t, stride) && src == |pix|
    requires stride == 0 ==> t == 0
    requires left == Span(height - t, lineLen)
    ensures Zeros(left) + BottomUp(pix, stride, t, lineLen) == BottomUp(pix, stride, height, lineLen)
  {
    if stride == 0 {
      BottomUpOfEmptyRows(pix, height, lineLen);
      assert Zeros(left) + [] == Zeros(left);
    } else {
      assert t == height by {
        if t < height {
          SpanBefore(t, height, stride);
        }
      }
      assert Zeros(left) == [];
    }
  }

  /** Copying a row into a zeroed line of a zero-prefixed buffer leaves the line as `Fit(row)`. */
  lemma PlaceRow(before: Bytes, after: Bytes, dest: nat, lineLen: nat, row: Bytes, copied: nat, rest: Bytes)
    requires before == Zeros(dest + lineLen) + rest
    requires copied == if |row| < lineLen then |row| else lineLen
    requires after == before[..dest] + row[..copied] + before[dest + copied..]
    ensures after == Zeros(dest) + Fit(row, lineLen) + rest
  {
    assert before[..dest] == Zeros(dest);
    assert before[dest + copied..] == Zeros(lineLen - copied) + rest;
    assert Fit(row, lineLen) == row[..copied] + Zeros(lineLen - copied);
  }

  /** What `png.Decode` produced. */
  datatype DecodedImage =
    | DecodeError(message: string)
    | Nrgba(width: nat, height: nat, stride: nat, pix: Bytes)
    | OtherImage

  /** The arguments `createTexture` passes to `gl.TexImage2D`. */
  datatype Upload = Upload(width: nat, height: nat, data: Bytes)

  const NotNrgba := "texture must be an NRGBA image"

  /**
   * `createTexture` after decoding: `textureId` is what `gl.GenTexture`
   * returns.  A decoding error or an image that is not NRGBA returns texture
   * 0 with an error and uploads nothing; otherwise the flipped pixels are uploaded.
   */
  method CreateTexture(img: DecodedImage, textureId: nat)
    returns (texture: nat, err: Option<string>, upload: Option<Upload>)
    requires img.Nrgba? ==> |img.pix| == img.height * img.stride
    ensures img.DecodeError? ==> texture == 0 && err == Some(img.message) && upload == None
    ensures img.OtherImage? ==> texture == 0 && err == Some(NotNrgba) && upload == None
    ensures img.Nrgba? ==>
      && texture == textureId && err == None
      && upload == Some(Upload(img.width, img.height, Flipped(img.width, img.height, img.stride, img.pix)))
  {
    match img
    case DecodeError(message) =>
      return 0, Some(message), None;
    case OtherImage =>
      return 0, Some(NotNrgba), None;
    case Nrgba(width, height, stride, pix) =>
      var data := FlipImage(width, height, stride, pix);
      return textureId, None, Some(Upload(width, height, data[..]));
  }

  /** GLFW key actions. */
  datatype Action = Release | Press | Repeat

  /** GLFW's key code for Escape. */
  const KeyEscape := 256

  /** The part of a GLFW window `handleKey` touches. */
  class Window {
    var shouldClose: bool

    constructor ()
      ensures !shouldClose
    {
      shouldClose := false;
    }
  }

  /** `handleKey`: only pressing Escape asks the window to close; nothing ever clears the request. */
  method HandleKey(window: Window, key: int, action: Action)
    modifies window
    ensures window.shouldClose == (old(window.shouldClose) || (action == Press && key == KeyEscape))
  {
    if action != Press {
      return;
    }
    if key == KeyEscape {
      window.shouldClose := true;
    }
  }
}
