/** `MainActivity.preprocessImage`: the 128x128 bitmap's pixels, read in
    row-major order, become a direct buffer of 128 * 128 * 3 floats, each
    pixel giving its red, green and blue channels divided by 255. */
module Preprocess {
  import opened PixelFormat
  import opened Buffers

  /** The side lengths the bitmap is scaled to. */
  const TargetWidth: nat := 128
  const TargetHeight: nat := 128

  /** The input shape the classifier expects: height, width, channels. */
  const ExpectedInputShape: seq<nat> := [128, 128, 3]

  /** Bytes in the input buffer: one float per entry of the input shape. */
  const ExpectedCapacity: nat :=
    ExpectedInputShape[0] * ExpectedInputShape[1] * ExpectedInputShape[2] * FloatBytes

  /** A decoded bitmap: `rows[y][x]` is the ARGB colour of the pixel in
      column `x` of row `y`. */
  datatype Bitmap = Bitmap(width: nat, height: nat, rows: seq<seq<Int32>>)
  {
    /** `height` rows of `width` pixels each. */
    ghost predicate WellFormed() {
      |rows| == height && forall y | 0 <= y < |rows| :: |rows[y]| == width
    }

    /** The colour of the pixel in column `x` of row `y`. */
    function Pixel(x: nat, y: nat): Int32
      requires WellFormed() && x < width && y < height
    {
      rows[y][x]
    }
  }

  /** The rows one after another. */
  function Flatten(rows: seq<seq<Int32>>): seq<Int32> {
    if rows == [] then [] else rows[0] + Flatten(rows[1..])
  }

  /** `bitmap.getPixels(intValues, 0, width, 0, 0, width, height)`: the
      whole bitmap, copied row by row with a stride of `width`. */
  function GetPixels(bm: Bitmap): (px: seq<Int32>)
    requires bm.WellFormed()
    ensures |px| == bm.width * bm.height
  {
    FlattenLength(bm.rows, bm.width);
    assert |bm.rows| * bm.width == bm.width * bm.height;
    Flatten(bm.rows)
  }

  /** `height` rows of `width` pixels give `height * width` pixels. */
  lemma {:induction false} FlattenLength(rows: seq<seq<Int32>>, width: nat)
    requires forall r | 0 <= r < |rows| :: |rows[r]| == width
    ensures |Flatten(rows)| == |rows| * width
  {
    if rows != [] {
      FlattenLength(rows[1..], width);
      assert |rows| * width == width + (|rows| - 1) * width;
    }
  }

  /** Pixel `(x, y)` lands at index `y * width + x` of the copied array. */
  lemma {:induction false} FlattenAt(rows: seq<seq<Int32>>, width: nat, x: nat, y: nat)
    requires forall r | 0 <= r < |rows| :: |rows[r]| == width
    requires x < width && y < |rows|
    ensures y * width + x < |Flatten(rows)|
    ensures Flatten(rows)[y * width + x] == rows[y][x]
  {
    FlattenLength(rows, width);
    if y > 0 {
      FlattenAt(rows[1..], width, x, y - 1);
      assert y * width + x == width + ((y - 1) * width + x);
    }
  }

  /** The row-major layout of `getPixels`. */
  lemma GetPixelsRowMajor(bm: Bitmap, x: nat, y: nat)
    requires bm.WellFormed() && x < bm.width && y < bm.height
    ensures |GetPixels(bm)| == bm.width * bm.height
    ensures y * bm.width + x < bm.width * bm.height
    ensures GetPixels(bm)[y * bm.width + x] == bm.Pixel(x, y)
  {
    FlattenLength(bm.rows, bm.width);
    FlattenAt(bm.rows, bm.width, x, y);
    assert |bm.rows| * bm.width == bm.width * bm.height;
  }

  /** `channel / 255.0f`, kept as an exact real: 0 goes to 0, 255 to 1, and
      everything lies in between. */
  function Normalize(c: Channel): (x: real)
    ensures 0.0 <= x <= 1.0
    ensures x == 0.0 <==> c == 0
    ensures x == 1.0 <==> c == 255
  {
    c as real / 255.0
  }

  /** Normalisation keeps the order of channel values strictly. */
  lemma NormalizeMonotone(c: Channel, d: Channel)
    requires c < d
    ensures Normalize(c) < Normalize(d)
  {
  }

  /** The three floats one pixel contributes, in the order the loop puts
      them. */
  function PixelFloats(v: Int32): (f: seq<real>)
    ensures |f| == 3
    ensures forall c | 0 <= c < 3 :: f[c] == Normalize(ChannelOf(v, c))
    ensures forall c | 0 <= c < 3 :: 0.0 <= f[c] <= 1.0
  {
    [Normalize(Red(v)), Normalize(Green(v)), Normalize(Blue(v))]
  }

  /** The tensor the buffer should hold for a pixel array: the pixels'
      float triplets one after another, three floats per pixel. */
  function Tensor(pixels: seq<Int32>): (t: seq<real>)
    ensures |t| == 3 * |pixels|
  {
    if pixels == [] then [] else PixelFloats(pixels[0]) + Tensor(pixels[1..])
  }

  /** The interleaved layout: slot `3i + c` holds channel `c` (red, green,
      blue) of pixel `i`, normalised. */
  lemma {:induction false} TensorLayout(pixels: seq<Int32>, i: nat, c: nat)
    requires i < |pixels| && c < 3
    ensures |Tensor(pixels)| == 3 * |pixels|
    ensures Tensor(pixels)[3 * i + c] == Normalize(ChannelOf(pixels[i], c))
  {
    if i > 0 {
      TensorLayout(pixels[1..], i - 1, c);
    }
  }

  /** Whole-image layout: channel `c` of pixel `(x, y)` of the bitmap is
      slot `3 * (y * width + x) + c` of the tensor. */
  lemma ImageLayout(bm: Bitmap, x: nat, y: nat, c: nat)
    requires bm.WellFormed() && x < bm.width && y < bm.height && c < 3
    ensures |Tensor(GetPixels(bm))| == 3 * (bm.width * bm.height)
    ensures var slot := 3 * (y * bm.width + x) + c;
            0 <= slot < |Tensor(GetPixels(bm))| && Tensor(GetPixels(bm))[slot] == Normalize(ChannelOf(bm.Pixel(x, y), c))
  {
    GetPixelsRowMajor(bm, x, y);
    TensorLayout(GetPixels(bm), y * bm.width + x, c);
  }

  /** An image of one colour gives the same normalised triplet at every
      pixel, whatever its alpha. */
  lemma SolidColourTensor(pixels: seq<Int32>, a: Channel, r: Channel, g: Channel, b: Channel, i: nat)
    requires forall j | 0 <= j < |pixels| :: pixels[j] == Pack(a, r, g, b)
    requires i < |pixels|
    ensures 3 * i + 3 <= |Tensor(pixels)|
    ensures Tensor(pixels)[3 * i .. 3 * i + 3] == [Normalize(r), Normalize(g), Normalize(b)]
  {
    UnpackPack(a, r, g, b);
    TensorLayout(pixels, i, 0);
    TensorLayout(pixels, i, 1);
    TensorLayout(pixels, i, 2);
  }

  /** A pure red image gives the triplet (1, 0, 0) at every pixel. */
  lemma PureRedTensor(pixels: seq<Int32>, a: Channel, i: nat)
    requires forall j | 0 <= j < |pixels| :: pixels[j] == Pack(a, 255, 0, 0)
    requires i < |pixels|
    ensures 3 * i + 3 <= |Tensor(pixels)|
    ensures Tensor(pixels)[3 * i .. 3 * i + 3] == [1.0, 0.0, 0.0]
  {
    SolidColourTensor(pixels, a, 255, 0, 0, i);
  }

  /** Two pixel arrays that differ only in alpha give the same tensor. */
  lemma {:induction false} TensorIgnoresAlpha(pixels: seq<Int32>, others: seq<Int32>)
    requires |pixels| == |others|
    requires forall j | 0 <= j < |pixels| :: Rgb24(pixels[j]) == Rgb24(others[j])
    ensures Tensor(pixels) == Tensor(others)
  {
    if pixels != [] {
      AlphaIgnored(pixels[0], others[0]);
      TensorIgnoresAlpha(pixels[1..], others[1..]);
    }
  }

  /** The smaller of two counts. */
  function Min(m: nat, n: nat): nat {
    if m <= n then m else n
  }

  /** `d` is `before` with `t[..w]` written from slot `s0` on and every other
      slot untouched. */
  ghost predicate Spliced(d: seq<real>, before: seq<real>, s0: nat, t: seq<real>, w: nat) {
    |d| == |before| && s0 + w <= |d| && w <= |t| &&
    (forall j | 0 <= j < s0 :: d[j] == before[j]) &&
    (forall j | 0 <= j < w :: d[s0 + j] == t[j]) &&
    (forall j | s0 + w <= j < |d| :: d[j] == before[j])
  }

  /** Writing the next element of `t` at the next slot extends the splice. */
  lemma SplicedStep(d: seq<real>, before: seq<real>, s0: nat, t: seq<real>, w: nat)
    requires Spliced(d, before, s0, t, w) && s0 + w < |d| && w < |t|
    ensures Spliced(d[s0 + w := t[w]], before, s0, t, w + 1)
  {
    var d' := d[s0 + w := t[w]];
    forall j | 0 <= j < w + 1
      ensures d'[s0 + j] == t[j]
    {
      if j < w {
        assert d'[s0 + j] == d[s0 + j];
      }
    }
  }

  /** A splice written out as a concatenation. */
  lemma SplicedIsConcat(d: seq<real>, before: seq<real>, s0: nat, t: seq<real>, w: nat)
    requires Spliced(d, before, s0, t, w)
    ensures d == before[..s0] + t[..w] + before[s0 + w..]
  {
    var e := before[..s0] + t[..w] + before[s0 + w..];
    assert |e| == |d|;
    forall j | 0 <= j < |d|
      ensures d[j] == e[j]
    {
      if j < s0 {
      } else if j < s0 + w {
        assert d[s0 + (j - s0)] == t[j - s0];
      } else {
      }
    }
  }

  /** The `for (int value : intValues)` loop: three `putFloat` calls per
      pixel from the buffer's current position. When the pixels fit, all
      `3 * |pixels|` floats are written and `ok` holds; otherwise the first
      `putFloat` without four bytes left throws, leaving the floats written
      so far, and `ok` is false. Slots before the starting position and
      after the last write are never changed. */
  method PutPixels(buf: ByteBuffer, pixels: seq<Int32>) returns (ok: bool)
    requires buf.Valid()
    modifies buf`position, buf.data
    ensures buf.Valid()
    ensures ok <==> old(buf.position) + 3 * FloatBytes * |pixels| <= buf.capacity
    ensures var s0 := old(buf.position) / FloatBytes;
            var w := Min(3 * |pixels|, buf.data.Length - s0);
            buf.position == old(buf.position) + FloatBytes * w &&
            buf.data[..] == old(buf.data[..])[..s0] + Tensor(pixels)[..w] + old(buf.data[..])[s0 + w..]
  {
    ghost var before := buf.data[..];
    ghost var s0 := buf.position / FloatBytes;
    ghost var t := Tensor(pixels);
    ghost var w: nat := 0;
    ok := true;
    var k := 0;
    while k < |pixels| && ok
      invariant 0 <= k <= |pixels|
      invariant buf.Valid()
      invariant buf.position == FloatBytes * (s0 + w)
      invariant Spliced(buf.data[..], before, s0, t, w)
      invariant ok ==> w == 3 * k
      invariant !ok ==> k < |pixels| && buf.position + FloatBytes > buf.capacity && 3 * k <= w < 3 * k + 3
      decreases |pixels| - k, ok
    {
      TensorLayout(pixels, k, 0);
      TensorLayout(pixels, k, 1);
      TensorLayout(pixels, k, 2);
      ok, w := PutPixel(buf, pixels[k], before, s0, t, w);
      if ok {
        k := k + 1;
      }
    }
    SplicedIsConcat(buf.data[..], before, s0, t, w);
    LoopExit(old(buf.position), buf.capacity, |pixels|, k, w, ok);
  }

  /** How the loop ends: either every pixel was put, or a put overflowed with
      fewer than four bytes left; in both cases the number of floats written
      is the smaller of the floats wanted and the floats that fit. */
  lemma LoopExit(start: nat, capacity: nat, n: nat, k: nat, w: nat, ok: bool)
    requires start % FloatBytes == 0 && start + FloatBytes * w <= capacity
    requires ok ==> w == 3 * k && k == n
    requires !ok ==> k < n && start + FloatBytes * w + FloatBytes > capacity && 3 * k <= w < 3 * k + 3
    ensures ok <==> start + 3 * FloatBytes * n <= capacity
    ensures w == Min(3 * n, capacity / FloatBytes - start / FloatBytes)
  {
  }

  /** The body of the loop: three `putFloat` calls for one pixel, the first
      overflow ending the loop. `written` counts the slots written so far. */
  method PutPixel(buf: ByteBuffer, value: Int32, ghost before: seq<real>, ghost s0: nat, ghost t: seq<real>, ghost w: nat)
    returns (ok: bool, ghost written: nat)
    requires buf.Valid() && buf.position == FloatBytes * (s0 + w)
    requires Spliced(buf.data[..], before, s0, t, w) && w + 3 <= |t|
    requires t[w] == Normalize(Red(value)) && t[w + 1] == Normalize(Green(value)) && t[w + 2] == Normalize(Blue(value))
    modifies buf`position, buf.data
    ensures buf.Valid() && buf.position == FloatBytes * (s0 + written)
    ensures Spliced(buf.data[..], before, s0, t, written)
    ensures ok <==> written == w + 3
    ensures !ok ==> w <= written < w + 3 && buf.position + FloatBytes > buf.capacity
  {
    written := w;
    ok := PutNext(buf, Normalize(Red(value)), before, s0, t, written);
    if ok {
      written := written + 1;
      ok := PutNext(buf, Normalize(Green(value)), before, s0, t, written);
      if ok {
        written := written + 1;
        ok := PutNext(buf, Normalize(Blue(value)), before, s0, t, written);
        if ok {
          written := written + 1;
        }
      }
    }
  }

  /** One `putFloat` of the loop: it writes element `w` of the tensor after
      the `w` already written, or overflows and changes nothing. */
  method PutNext(buf: ByteBuffer, x: real, ghost before: seq<real>, ghost s0: nat, ghost t: seq<real>, ghost w: nat)
    returns (ok: bool)
    requires buf.Valid() && buf.position == FloatBytes * (s0 + w)
    requires Spliced(buf.data[..], before, s0, t, w) && w < |t| && t[w] == x
    modifies buf`position, buf.data
    ensures buf.Valid()
    ensures ok <==> old(buf.position) + FloatBytes <= buf.capacity
    ensures ok ==> buf.position == FloatBytes * (s0 + w + 1) && Spliced(buf.data[..], before, s0, t, w + 1)
    ensures !ok ==> buf.position == old(buf.position) && buf.data[..] == old(buf.data[..])
  {
    ghost var d := buf.data[..];
    ok := buf.PutFloat(x);
    if ok {
      SplicedStep(d, before, s0, t, w);
    }
  }

  /** `preprocessImage` after scaling: allocate the buffer of
      `ExpectedCapacity` bytes, copy the pixels out in row-major order, put
      every pixel's three normalised channels, and rewind. `ok` is false when
      a put overflowed, which Java reports by throwing before the rewind; it
      is proved true: all 49152 floats fit exactly, and the buffer comes back
      at position 0 holding the tensor of the image. */
  method PreprocessImage(scaled: Bitmap) returns (buf: ByteBuffer, ok: bool)
    requires scaled.WellFormed()
    requires scaled.width == TargetWidth && scaled.height == TargetHeight
    ensures ok
    ensures fresh(buf) && fresh(buf.data) && buf.Valid()
    ensures buf.capacity == ExpectedCapacity == 196608 && buf.position == 0
    ensures buf.data.Length == TargetWidth * TargetHeight * 3
    ensures buf.data[..] == Tensor(GetPixels(scaled))
  {
    var expectedCapacity := ExpectedInputShape[0] * ExpectedInputShape[1] * ExpectedInputShape[2] * FloatBytes;
    buf := new ByteBuffer.AllocateDirect(expectedCapacity);
    var intValues := GetPixels(scaled);
    GetPixelsRowMajor(scaled, 0, 0);
    ok := PutPixels(buf, intValues);
    if ok {
      buf.Rewind();
    }
  }
}
