# AndroidFaceAuthenticator: the NV21 encoder and the unlock decisions

AndroidFaceAuthenticator unlocks a phone by face. A camera frame is turned
into a bitmap and then into an NV21 (YUV420SP) byte buffer for the Firebase
face detector. The frame analyser compares each detected face's FaceNet
embedding with the embeddings of the enrolled people and labels the face with
the best match. The unlock button opens the protected screen only when that
label is the phone owner's name.

This project models the logic of that pipeline that runs in plain code:

- **Nv21** (`nv21.dfy`): the ARGB to NV21 conversion `encodeYUV420SP` and
  `bitmapToNV21`. The two copies of `encodeYUV420SP`, in the activity and in
  the frame analyser, are identical line for line, so they are modelled
  once. `Nv21Image` writes the NV21 layout down directly: the luma plane, then
  one V,U pair per 2x2 block, taken from the block's top-left pixel.
  `EncodeYuv420Sp` is the source's in-place loop over an `array<byte>`,
  proved to produce exactly `Nv21Image` and to leave the rest of the buffer
  alone. The loops are split into methods that follow the source's
  structure:
  - `EncodeYuv420Sp` is the outer loop over the rows, and `EncodeRowAt` is
    one pass of it.
  - `EncodeRow` is the inner loop over the pixels, and `EncodePixel` is its
    body.
  - `StoreLuma` and `StorePair` are the `yuv420sp[yIndex++]` and
    `yuv420sp[uvIndex++]` writes.
  - The ghost context these methods share, namely the planes the call
    produces and the buffer's old contents, is one `Target` value.
- **FrameAnalyser** (`frame_analyser.dfy`): the best-match search in
  `analyze` and `degreesToFirebaseRotation`.
- **FaceAuthentication** (`face_authentication.dfy`): the `faceAuthBtn`
  decision and the display-rotation `when` in `updateTransform`.
- **Arith** (`arith.dfy`) holds nonlinear-arithmetic facts. **Wrappers**
  (`wrappers.dfy`) holds `Option` and `Result`.

Representation choices:
- A pixel is a `bv32`, the bit pattern of a Kotlin `Int`. After the masks,
  Kotlin's `and` and `shr` agree with `&` and `>>` on bit-vectors.
- Kotlin's `shr 8` applied to an `Int` is an arithmetic shift, so it is
  division by 256 rounded down.
- A stored byte is a value in 0..255: the bit pattern that Kotlin's signed
  `toByte()` gives.
- The buffer size uses the real-valued `ceil` of the source,
  `h*w + 2*ceil(h/2.0)*ceil(w/2.0)`. It is proved equal to the exact NV21
  length.
- A thrown exception becomes a `Result.Failure` that carries its message.
  Reading the uninitialised `lateinit` `phoneOwner` is one such exception,
  so the owner is an `Option`.
- The platform constants `Surface.ROTATION_*` and
  `FirebaseVisionImageMetadata.ROTATION_*` are not in the repository. They
  are modelled as 0, 1, 2 and 3 (quarter turns).

## Model

The Kotlin lines the encoder rows cite are those of the activity's copy.
The frame analyser's copy, at FrameAnalyser.kt:170-197, is the same code.

| member | source | states |
|---|---|---|
| Nv21.EncodeYuv420Sp | app/src/main/java/com/example/faceAuthenticator/main/FaceAuthenticationActivity.kt:226-253 | Every write stays in bounds. After the call, the first h*w + 2*ceil(h/2)*ceil(w/2) bytes of the buffer are exactly the NV21 image of the pixels. Every byte beyond them is unchanged. |
| Nv21.EncodeRowAt | app/src/main/java/com/example/faceAuthenticator/main/FaceAuthenticationActivity.kt:237-251 | One pass of the outer loop takes yIndex and index from the start of row j to the start of row j+1. It takes uvIndex past the row's V,U bytes. The buffer stays the Y and V,U prefix written so far, with all other bytes unchanged (RowsDone). |
| Nv21.EncodeRow | app/src/main/java/com/example/faceAuthenticator/main/FaceAuthenticationActivity.kt:238-251 | The inner loop advances yIndex and index by the width. It advances uvIndex by 2*ceil(width/2) on even rows and by 0 on odd rows. It keeps the buffer equal to the planes' prefixes. |
| Nv21.EncodePixel | app/src/main/java/com/example/faceAuthenticator/main/FaceAuthenticationActivity.kt:239-250 | One pixel adds its luma byte at yIndex. When `j % 2 == 0 && index % 2 == 0`, it also adds its V then U byte at the next two chroma positions. Nothing else in the buffer changes. |
| Nv21.StoreLuma | app/src/main/java/com/example/faceAuthenticator/main/FaceAuthenticationActivity.kt:245 | `yuv420sp[yIndex++]` extends the written luma prefix by one byte. |
| Nv21.StorePair | app/src/main/java/com/example/faceAuthenticator/main/FaceAuthenticationActivity.kt:247-248 | The two `yuv420sp[uvIndex++]` writes extend the written chroma prefix by one V,U pair. |
| Nv21.PairBytes | app/src/main/java/com/example/faceAuthenticator/main/FaceAuthenticationActivity.kt:239-248 | The V and U bytes the loop computes from an even pixel of an even row are the ones the NV21 layout puts at its place in the chroma plane. |
| Nv21.RowBytes | app/src/main/java/com/example/faceAuthenticator/main/FaceAuthenticationActivity.kt:246-248 | For every row j, each even-indexed pixel of an even row has its V,U pair in the chroma plane at the row's chroma offset plus the pixel's offset in the row. |
| Nv21.PairStep | app/src/main/java/com/example/faceAuthenticator/main/FaceAuthenticationActivity.kt:246 | The test `j % 2 == 0 && index % 2 == 0` fires exactly on the even pixels of even rows. uvIndex therefore never passes the row's share of the chroma plane. |
| Nv21.RowCounters | app/src/main/java/com/example/faceAuthenticator/main/FaceAuthenticationActivity.kt:237-238 | Every row and its chroma bytes fit inside the frame and the chroma plane. |
| Nv21.RowStartIsProduct | app/src/main/java/com/example/faceAuthenticator/main/FaceAuthenticationActivity.kt:245 | yIndex at the start of row j is width*j. |
| Nv21.ChromaStartIsBlocks | app/src/main/java/com/example/faceAuthenticator/main/FaceAuthenticationActivity.kt:246-248 | uvIndex - frameSize at the start of row j is 2*ceil(j/2)*ceil(width/2). |
| Nv21.RowsDoneStart | app/src/main/java/com/example/faceAuthenticator/main/FaceAuthenticationActivity.kt:227-236 | With yIndex = 0, uvIndex = frameSize and index = 0, nothing has been written yet, and the buffer is all its old contents. |
| Nv21.RowsDoneAll | app/src/main/java/com/example/faceAuthenticator/main/FaceAuthenticationActivity.kt:227-253 | Once all rows are done, the Y plane and then the V,U plane fill the buffer exactly, and the rest is unchanged. |
| Nv21.BitmapToNv21 | app/src/main/java/com/example/faceAuthenticator/main/FaceAuthenticationActivity.kt:217-224 | The fresh buffer has the source's size, and all of it is the NV21 image of the pixels. |
| Nv21.BufferSize | app/src/main/java/com/example/faceAuthenticator/main/FaceAuthenticationActivity.kt:220-221 | The allocation `h*w + 2*ceil(h/2.0)*ceil(w/2.0)`, computed with a real-valued ceil as written, is exactly the NV21 length w*h + 2*ceil(h/2)*ceil(w/2): the luma plane plus the chroma plane. The copy in FrameAnalyser.kt:164-165 is the same expression. |
| Nv21.CeilHalf | app/src/main/java/com/example/faceAuthenticator/main/FaceAuthenticationActivity.kt:220-221 | `ceil(n / 2.0).toInt()` is (n+1)/2 for every non-negative n. |
| Nv21.Ceil | app/src/main/java/com/example/faceAuthenticator/main/FaceAuthenticationActivity.kt:220-221 | `ceil` gives the least integer at or above its argument. |
| Nv21.Red | app/src/main/java/com/example/faceAuthenticator/main/FaceAuthenticationActivity.kt:239 | `argb[index] and 0xff0000 shr 16` is the pixel's byte at bits 16..23, as a channel in 0..255. |
| Nv21.Green | app/src/main/java/com/example/faceAuthenticator/main/FaceAuthenticationActivity.kt:240 | `argb[index] and 0xff00 shr 8` is the pixel's byte at bits 8..15, as a channel in 0..255. |
| Nv21.Blue | app/src/main/java/com/example/faceAuthenticator/main/FaceAuthenticationActivity.kt:241 | `argb[index] and 0xff shr 0` is the pixel's byte at bits 0..7, as a channel in 0..255. |
| Nv21.Shr8 | app/src/main/java/com/example/faceAuthenticator/main/FaceAuthenticationActivity.kt:242-244 | `shr 8` is division by 256 rounded down, negative operands included. |
| Nv21.Luma | app/src/main/java/com/example/faceAuthenticator/main/FaceAuthenticationActivity.kt:242 | For 8-bit channels, the luma formula stays within 16..235. |
| Nv21.ChromaU | app/src/main/java/com/example/faceAuthenticator/main/FaceAuthenticationActivity.kt:243 | For 8-bit channels, the U formula stays within 16..240. |
| Nv21.ChromaV | app/src/main/java/com/example/faceAuthenticator/main/FaceAuthenticationActivity.kt:244 | For 8-bit channels, the V formula stays within 16..240. |
| Nv21.Clamp | app/src/main/java/com/example/faceAuthenticator/main/FaceAuthenticationActivity.kt:245-248 | The clamp maps negative values to 0 and values above 255 to 255, and keeps everything in between. |
| Nv21.YByte | app/src/main/java/com/example/faceAuthenticator/main/FaceAuthenticationActivity.kt:239-245 | The stored luma byte equals the unclamped formula, because the clamp never fires. |
| Nv21.UByte | app/src/main/java/com/example/faceAuthenticator/main/FaceAuthenticationActivity.kt:239-248 | The stored U byte equals the unclamped formula, because the clamp never fires. |
| Nv21.VByte | app/src/main/java/com/example/faceAuthenticator/main/FaceAuthenticationActivity.kt:239-247 | The stored V byte equals the unclamped formula, because the clamp never fires. |
| Nv21.ChannelsIgnoreAlpha | app/src/main/java/com/example/faceAuthenticator/main/FaceAuthenticationActivity.kt:239-241 | The channel masks discard the alpha byte: pixels with equal RGB bits have equal channels. |
| Nv21.BytesIgnoreAlpha | app/src/main/java/com/example/faceAuthenticator/main/FaceAuthenticationActivity.kt:239-244 | Pixels with equal RGB bits have equal Y, U and V bytes. |
| Nv21.Nv21IgnoresAlpha | app/src/main/java/com/example/faceAuthenticator/main/FaceAuthenticationActivity.kt:226-253 | Images that differ only in alpha encode to the same NV21 bytes. |
| Nv21.PerPixelSame | app/src/main/java/com/example/faceAuthenticator/main/FaceAuthenticationActivity.kt:237-245 | Images whose pixels agree under a per-pixel byte function give the same plane. |
| Nv21.Nv21LumaPlane | app/src/main/java/com/example/faceAuthenticator/main/FaceAuthenticationActivity.kt:237-245 | NV21 byte k, for k below w*h, is the luma byte of pixel k (row-major order). |
| Nv21.Nv21ChromaPlane | app/src/main/java/com/example/faceAuthenticator/main/FaceAuthenticationActivity.kt:229 | The chroma plane starts at offset frameSize = w*h. |
| Nv21.ChromasBlock | app/src/main/java/com/example/faceAuthenticator/main/FaceAuthenticationActivity.kt:246-248 | Chroma pair blk holds the V byte and then the U byte of the top-left pixel of 2x2 block blk. |
| Nv21.BlockPixelAt | app/src/main/java/com/example/faceAuthenticator/main/FaceAuthenticationActivity.kt:246 | Block (bj, bi) is pair number bj*ceil(w/2)+bi, and its top-left pixel is row 2*bj, column 2*bi. The blocks are numbered row-major. |
| Nv21.BlockPixel | app/src/main/java/com/example/faceAuthenticator/main/FaceAuthenticationActivity.kt:246 | Every block's top-left pixel lies inside the image. |
| Nv21.ChromaPlaneAt | app/src/main/java/com/example/faceAuthenticator/main/FaceAuthenticationActivity.kt:247-248 | In the interleaved plane, V comes first and U second in each pair. |
| Nv21.ChromaOfPixel | app/src/main/java/com/example/faceAuthenticator/main/FaceAuthenticationActivity.kt:246-248 | On an even row, the even pixel k has its V,U pair at the row's chroma offset plus k's offset in the row. |
| Nv21.InterleaveAt | app/src/main/java/com/example/faceAuthenticator/main/FaceAuthenticationActivity.kt:247-248 | Interleaving puts xs[b] at 2b and ys[b] at 2b+1. |
| Nv21.PlanesFilled | app/src/main/java/com/example/faceAuthenticator/main/FaceAuthenticationActivity.kt:227-253 | When both counters reach the ends of their planes, the buffer starts with Y plane + V,U plane. |
| FrameAnalyser.BestMatch | app/src/main/java/com/example/faceAuthenticator/utilities/FrameAnalyser.kt:93-103 | The search returns the first entry with the highest score above -1, or ("", -1) when there is none. The score is at least -1 and at least every entry's score. The name is "" or the name of an entry. |
| FrameAnalyser.FirstBestUnique | app/src/main/java/com/example/faceAuthenticator/utilities/FrameAnalyser.kt:99-102 | Because the comparison is strict, at most one entry is the first highest. |
| FrameAnalyser.BestMatchUnique | app/src/main/java/com/example/faceAuthenticator/utilities/FrameAnalyser.kt:93-103 | The list determines the answer: any two results of the search agree. |
| FrameAnalyser.TiesKeepFirst | app/src/main/java/com/example/faceAuthenticator/utilities/FrameAnalyser.kt:99-102 | Among entries tied at the top score, the first one names the face. |
| FrameAnalyser.NoneAboveGivesStart | app/src/main/java/com/example/faceAuthenticator/utilities/FrameAnalyser.kt:93-94 | An empty list, or one with no score above -1, gives the label "" and the score -1. |
| FrameAnalyser.DegreesToFirebaseRotation | app/src/main/java/com/example/faceAuthenticator/utilities/FrameAnalyser.kt:153-159 | The result is defined exactly for 0, 90, 180 and 270, where it is the number of quarter turns. Any other angle fails with "Rotation must be 0, 90, 180, or 270.". |
| FrameAnalyser.RotationsDistinct | app/src/main/java/com/example/faceAuthenticator/utilities/FrameAnalyser.kt:153-159 | The four accepted angles give four different constants. |
| FrameAnalyser.MetadataRotation | app/src/main/java/com/example/faceAuthenticator/utilities/FrameAnalyser.kt:39 | The metadata's `degreesToFirebaseRotation(90)` does not throw, and gives ROTATION_90. |
| FaceAuthentication.FaceAuthClick | app/src/main/java/com/example/faceAuthenticator/main/FaceAuthenticationActivity.kt:87-97 | The button opens SecondActivity if and only if phoneOwner is set and equals the label text. Otherwise, with phoneOwner set, it opens MainActivity with the wrong-identity error. Before phoneOwner is set, it fails. |
| FaceAuthentication.OnlyOwnerUnlocks | app/src/main/java/com/example/faceAuthenticator/main/FaceAuthenticationActivity.kt:87-90 | Only one label text unlocks, and it is the owner's name. |
| FaceAuthentication.DisplayRotationDegrees | app/src/main/java/com/example/faceAuthenticator/main/FaceAuthenticationActivity.kt:190-196 | A display rotation r in 0..3 gives 90*r degrees. Any other value gives nothing, because updateTransform returns early. |
| FaceAuthentication.DisplayDegreesAreFirebaseRotations | app/src/main/java/com/example/faceAuthenticator/main/FaceAuthenticationActivity.kt:190-196 | A cross-check of the chosen platform constants, not a path of the program. Every angle updateTransform derives is accepted by degreesToFirebaseRotation, which maps it back to the same quarter-turn count. |

## Left out

- cosineSimilarity (FrameAnalyser.kt:138-150): Float arithmetic with `pow` and `sqrt`, and a division that gives NaN for a zero vector. It is not modelled.
- The face embedding: it comes from FaceNetModel.getFaceEmbedding, which is not part of this model.
- The similarity scores: they are an input of the search, as reals.
- Float NaN scores: `p > highestSimilarityScore` is false for NaN. Reals have no NaN, so a NaN score is not modelled.
- The faceList HashMap: it is modelled as a sequence in its iteration order. The map's hashing order is not modelled.
- The isProcessing flag and the threads in the analyser: concurrency is not modelled.
- toBitmap (YUV image to JPEG to Bitmap): it is platform image I/O.
- scanStorageForImages: it reads files, and it is where phoneOwner gets its value. Here phoneOwner is an input.
- The Firebase detector, CameraX use cases, permission requests, `Matrix.postRotate` and the view updates. These are platform calls; only the values that pass into them are modelled.
- The other activities, MainActivity, SecondActivity and PasswordAuthenticationActivity, are not part of this model.
- The values of Surface.ROTATION_* and FirebaseVisionImageMetadata.ROTATION_* are platform constants, not in the repository. They are modelled as 0..3.
- Nv21.EncodeYuv420Sp: the final values of yIndex, uvIndex and index are not returned. They are locals of the source, and what the contract states is the buffer.
- Kotlin `Int` overflow: widths and heights are unbounded naturals. An image whose w*h overflows an Int is not modelled.
- The two identical copies of encodeYUV420SP and bitmapToNV21 (FrameAnalyser.kt:161-197) are modelled once, by the Nv21 members.
