# Bone fracture detection app: image preprocessing and label rule

This project models the one piece of self-contained logic in the Android
app's `MainActivity`: `preprocessImage`, which turns the 128x128 scaled
bitmap into the direct `ByteBuffer` the TensorFlow Lite model reads, and the
rule in `predict` that turns the model's score into "Fracture" or
"No Fracture".

- `pixel_format.dfy` (module `PixelFormat`): Java `int` pixels in the
  ARGB_8888 layout. It models the channel extraction `(value >> 16) & 0xFF`,
  `(value >> 8) & 0xFF` and `value & 0xFF` with Java's sign-extending `>>`
  written out as floor division. It also defines the packing of four channel
  bytes into such an `int`. The extraction is proved to invert the packing in
  both directions.
- `byte_buffer.dfy` (module `Buffers`): the `ByteBuffer` as a class. The class
  has a fixed byte capacity, an array of float slots and a byte `position`.
  It offers `allocateDirect`, relative `putFloat` (including its
  `BufferOverflowException` when fewer than four bytes remain) and `rewind`.
- `preprocess.dfy` (module `Preprocess`): the bitmap and `getPixels`
  (row-major copy). It has the normalisation `c / 255` over the reals and the
  specification function `Tensor` of the interleaved R, G, B layout. The
  method `PutPixels` is the `for` loop, proved against `Tensor`. The method
  `PreprocessImage` is the whole function, proved to fill exactly the
  196608-byte buffer with the tensor of the image and to leave it rewound.
- `prediction.dfy` (module `Prediction`): the threshold rule
  `confidence < 0.5`, with the score as a Java `float` that may be infinite
  or NaN.

Facts about the code that shape the model:

- `preprocessImage` has no error path for an empty image; the scaled
  bitmap is always 128x128.
- The buffer is filled in place, so it is modelled as an object whose
  methods change it.
- The threshold 0.5 and the two labels are fixed at line 90.

## Model

| member | source | states |
|---|---|---|
| `PixelFormat.ShiftRight` | app/src/main/java/com/example/myapplication/MainActivity.java:139-140 | Java's `>>` on an `int` keeps the sign: the result is negative exactly when the operand is |
| `PixelFormat.LowByte` | app/src/main/java/com/example/myapplication/MainActivity.java:139-141 | `& 0xFF` yields a value in 0..255 congruent to its operand modulo 256, negative operands included |
| `PixelFormat.Red` | app/src/main/java/com/example/myapplication/MainActivity.java:139 | `(value >> 16) & 0xFF` lies in 0..255 and is bits 16..23 of the low 24 bits, for every 32-bit value |
| `PixelFormat.Green` | app/src/main/java/com/example/myapplication/MainActivity.java:140 | `(value >> 8) & 0xFF` lies in 0..255 and is bits 8..15 of the low 24 bits |
| `PixelFormat.Blue` | app/src/main/java/com/example/myapplication/MainActivity.java:141 | `value & 0xFF` lies in 0..255 and is bits 0..7 |
| `PixelFormat.UnpackPack` | app/src/main/java/com/example/myapplication/MainActivity.java:136-141 | extracting the channels of a packed ARGB colour returns the alpha, red, green and blue that were packed |
| `PixelFormat.PackUnpack` | app/src/main/java/com/example/myapplication/MainActivity.java:136-141 | every 32-bit pixel value is the packing of its four extracted channels, so the extraction loses nothing |
| `PixelFormat.ColourBytes` | app/src/main/java/com/example/myapplication/MainActivity.java:139-141 | the red, green and blue bytes make up exactly the low 24 bits of the pixel |
| `PixelFormat.AlphaByte` | app/src/main/java/com/example/myapplication/MainActivity.java:136 | the pixel is its alpha byte, signed by two's complement, times 2^24 plus its low 24 bits |
| `PixelFormat.AlphaIgnored` | app/src/main/java/com/example/myapplication/MainActivity.java:139-141 | two pixels that agree in their low 24 bits, so that they differ only in alpha, give the same red, green and blue |
| `PixelFormat.AlphaIgnoredPacked` | app/src/main/java/com/example/myapplication/MainActivity.java:139-141 | changing only the alpha of a packed colour leaves its extracted red, green and blue unchanged |
| `Buffers.ByteBuffer.AllocateDirect` | app/src/main/java/com/example/myapplication/MainActivity.java:132 | a new buffer has the requested capacity, one zeroed slot per whole float and position 0 |
| `Buffers.ByteBuffer.Remaining` | app/src/main/java/com/example/myapplication/MainActivity.java:139 | the bytes remaining lie in 0..capacity, and at least four remain exactly when another float slot is free |
| `Buffers.ByteBuffer.PutFloat` | app/src/main/java/com/example/myapplication/MainActivity.java:139-141 | with four bytes left, the value goes into the slot at the position and the position advances by 4; otherwise it overflows and nothing changes |
| `Buffers.ByteBuffer.Rewind` | app/src/main/java/com/example/myapplication/MainActivity.java:144 | the position becomes 0 and every stored float stays as it was |
| `Preprocess.FlattenLength` | app/src/main/java/com/example/myapplication/MainActivity.java:135 | `height` rows of `width` pixels give an array of `width * height` pixels |
| `Preprocess.FlattenAt` | app/src/main/java/com/example/myapplication/MainActivity.java:136 | pixel `(x, y)` is copied to index `y * width + x` |
| `Preprocess.GetPixels` | app/src/main/java/com/example/myapplication/MainActivity.java:135-136 | `getPixels` over the whole bitmap yields exactly `width * height` pixels, filling the array allocated for it |
| `Preprocess.GetPixelsRowMajor` | app/src/main/java/com/example/myapplication/MainActivity.java:135-136 | `getPixels` with stride `width` fills all `width * height` entries in row-major order |
| `Preprocess.Normalize` | app/src/main/java/com/example/myapplication/MainActivity.java:139-141 | division by 255 maps every channel into [0, 1], sends 0 and only 0 to 0, and 255 and only 255 to 1 |
| `Preprocess.NormalizeMonotone` | app/src/main/java/com/example/myapplication/MainActivity.java:139-141 | normalisation is strictly increasing in the channel value |
| `Preprocess.PixelFloats` | app/src/main/java/com/example/myapplication/MainActivity.java:139-141 | one pixel gives three floats, red then green then blue, each its channel normalised and so within [0, 1] |
| `Preprocess.Tensor` | app/src/main/java/com/example/myapplication/MainActivity.java:138-142 | the tensor of a pixel array has exactly three floats per pixel |
| `Preprocess.TensorLayout` | app/src/main/java/com/example/myapplication/MainActivity.java:138-142 | slot `3i` holds the normalised red of pixel `i`, slot `3i+1` its green and slot `3i+2` its blue |
| `Preprocess.ImageLayout` | app/src/main/java/com/example/myapplication/MainActivity.java:135-142 | channel `c` of bitmap pixel `(x, y)` is slot `3 * (y * width + x) + c` of the tensor, which has `3 * width * height` slots |
| `Preprocess.SolidColourTensor` | app/src/main/java/com/example/myapplication/MainActivity.java:138-142 | an image of one colour gives that colour's normalised triplet at every pixel, whatever its alpha |
| `Preprocess.PureRedTensor` | app/src/main/java/com/example/myapplication/MainActivity.java:138-142 | an all-red image gives the triplet (1, 0, 0) at every pixel |
| `Preprocess.TensorIgnoresAlpha` | app/src/main/java/com/example/myapplication/MainActivity.java:138-142 | two pixel arrays differing only in alpha produce the same tensor |
| `Preprocess.SplicedStep` | app/src/main/java/com/example/myapplication/MainActivity.java:139-141 | one more put at the next slot extends the written prefix of the tensor by one element and touches no other slot |
| `Preprocess.SplicedIsConcat` | app/src/main/java/com/example/myapplication/MainActivity.java:138-142 | the buffer after the loop is the old slots before the start, then the written part of the tensor, then the old slots after it |
| `Preprocess.LoopExit` | app/src/main/java/com/example/myapplication/MainActivity.java:138-142 | the loop completes exactly when `12 * n` bytes fit after the start, and it writes the smaller of `3n` and the free float slots |
| `Preprocess.PutNext` | app/src/main/java/com/example/myapplication/MainActivity.java:139-141 | one `putFloat` of the loop writes the next tensor element after those already written, or overflows without changing anything |
| `Preprocess.PutPixel` | app/src/main/java/com/example/myapplication/MainActivity.java:139-141 | one pixel's three puts write its red, green and blue at the next three slots, or stop at the first overflow |
| `Preprocess.PutPixels` | app/src/main/java/com/example/myapplication/MainActivity.java:138-142 | the loop makes 3 puts per pixel and succeeds iff `12 * n` bytes remain. The position advances 4 bytes per float written. Written slots hold the tensor prefix; all other slots are unchanged |
| `Preprocess.PreprocessImage` | app/src/main/java/com/example/myapplication/MainActivity.java:122-146 | `ok` is always true: no put overflows. The 196608-byte buffer holds the tensor of the row-major pixels in all 49152 slots, and comes back at position 0 |
| `Prediction.PredictedClass` | app/src/main/java/com/example/myapplication/MainActivity.java:90 | the label is one of the two classes, and "Fracture" exactly when the score compares below 0.5 |
| `Prediction.FiniteThreshold` | app/src/main/java/com/example/myapplication/MainActivity.java:90 | a finite score is "Fracture" iff below 0.5 and "No Fracture" iff at least 0.5, including at 0.5 |
| `Prediction.NonFiniteScores` | app/src/main/java/com/example/myapplication/MainActivity.java:89-90 | NaN and positive infinity are "No Fracture", and negative infinity is "Fracture" |
| `Prediction.FractureDownwardClosed` | app/src/main/java/com/example/myapplication/MainActivity.java:90 | lowering a finite score that is labelled "Fracture" keeps it "Fracture" |

## Left out

- `Bitmap.createScaledBitmap` (line 120) is a library resampling filter whose kernel is not visible. `PreprocessImage` takes the scaled bitmap and requires the 128x128 shape that the call guarantees.
- TensorFlow Lite is foreign code and I/O. This covers loading the model file (`loadModelFile`, lines 60-67), creating the interpreter (lines 50-56) and `interpreter.run` (line 84). The score that `PredictedClass` takes is a parameter.
- The gallery intent, `onActivityResult`, the `ImageView`, the `Toast` text (including `confidence * 100`) and `Log` are Android UI plumbing (lines 69-74, 93, 103-117).
- The catch-all in `predict` and the `printStackTrace` calls (lines 52-56, 95-99) are error-reporting glue. The overflow they would catch is modelled as `PutFloat` returning false, and `PreprocessImage` proves it never happens.
- `Preprocess.Normalize`: the value is the exact real `c / 255`, not the IEEE-754 single-precision result of `/ 255.0f`, so rounding is not modelled.
- `Buffers.ByteBuffer.PutFloat`: a float is one slot of the array. The four bytes it occupies, and the native byte order set at line 133, are platform details and are not modelled.
- `Buffers.ByteBuffer`: the limit is not a separate field. Nothing in `preprocessImage` changes it, so it always equals the capacity.
- `Prediction.PredictedClass`: a finite score is any real, not only a value a Java `float` can hold. The comparison with `0.5` is exact for those values either way.
