# Face recognition on Android: the frame pipeline, the reference embedding and the image utilities

This project models the logic of an Android app that compares camera faces with a face from a
picked picture. The app has two pieces worth modelling.

- `MainActivity` runs the camera pipeline. A busy flag (`isProcessing`) admits one frame at a
  time. ML Kit finds the faces in that frame. Each face is cropped, scaled, turned into an
  embedding by a TFLite model, and compared by Euclidean distance with the reference embedding
  `comparedFaceEmbedding`.
  - A distance of at most 1.0 is a match. It clears the reference and removes the queued
    timeouts.
  - Picking a picture with exactly one face installs a new reference. It also posts a
    10-second timeout that clears the reference again.
- `ImageUtils` turns a camera frame or a picked picture into an upright bitmap. It cuts a face
  out of that bitmap and lays the face out as the model's float input tensor.

Files:

- `wrappers.dfy`: `Option` and `Result`.
- `grid.dfy`: index arithmetic for row-major grids.
- `image_utils.dfy` (module `ImageUtils`):
  - the class `ImageProxy`: a camera frame whose plane buffers a conversion reads to their end;
  - format dispatch, NV21 assembly, rotation and the Exif orientation switch;
  - `uriToBitmap`, cropping and scaling;
  - `preprocessImage`, which fills an array in nested loops.
- `matching.dfy` (module `Matching`):
  - `calculateDistance`, as a loop proved against a specification function;
  - the `<= 1.0` test;
  - the comparison loop over a list of per-face embeddings, as a value (`MatchAll`). What a whole
    frame does is `FrameLoop`/`FrameSpec` in `main_activity.dfy`: there every face converts the
    frame again, and `FrameMatchesIffSomeFaceMatches` states when a frame matches.
- `reference_lifecycle.dfy` (module `ReferenceLifecycle`): the reference embedding and the
  queued timeout runs as a state machine (`Step`, `Run`), with lemmas over event traces.
- `main_activity.dfy` (module `FaceRecognition`): the class `MainActivity`.
  - Each callback of the activity is a method.
  - Each method's postcondition ties the new state to a specification function (`FrameSpec`,
    `EnrollEvent`) and to `ReferenceLifecycle.Step`.
  - The class invariant `Valid` says the busy flag is set exactly while a frame is in flight.
    It also says a reference has the model's output length.

The model has no I/O or platform code. It takes these things as inputs:

- the detector's bounding boxes;
- the interpreter's `run` function and tensor shapes;
- the graphics library's JPEG codec (a `Codec` value);
- whether `InputImage.fromMediaImage` throws;
- what the content resolver yields for a URI (a `UriContent` value).

Listeners run one at a time. A firing timer is an event (`OnTimeout`), not wall-clock time.

Behaviour of the code as written, which the model follows:

- `cropBitmap` clamps the box's corner to 0 but does not shorten the box when it sticks out on
  the left or top.
  - A box partly left of the bitmap is cropped at its full width from column 0
    (`CropKeepsWidthLeftOfBitmap`).
  - A box lying entirely left of the bitmap still yields a crop (`CropOfBoxLeftOfBitmap`).
- A new enroll does not cancel the timeout posted by the previous one. The timeout clears
  whatever reference is installed, so the first enroll's timer clears the second reference
  (`StaleTimeoutClearsNewerInstall`).
- `calculateDistance`'s error value -1 passes the `<= 1.0` test (`SentinelPassesThreshold`).
  The pipeline never produces it: embeddings and reference always have the model's output length
  (`PipelineNeverSeesSentinel`).
- The listener converts the frame again for every face, and each conversion reads the plane
  buffers to their end with relative `get` calls. The buffers are the same objects every time,
  so only the first face is cut from the frame's picture (`Consumed`, `FrameSpec`).
  - A JPEG frame with two or more faces hands an empty array to the decoder for the second face.
    That decode is null, so the listener takes the null-bitmap exit
    (`JpegFrameComparesOnlyFirstFace`).
  - A YUV frame hands an empty NV21 array to the JPEG compressor for every later face
    (`ConsumedYuvCompressesEmptyArray`). Whatever the codec makes of it is used for those faces.
- On the null-bitmap path the frame is closed twice: once before the `return` and once in the
  `finally` block (`Closes`, `MainActivity.OnFrameFacesDetected`).
- A comment in `preprocessImage` says the values are normalised to [-1, 1]. With mean 0 and
  standard deviation 255 they lie in [0, 1] (`Normalized`, `InputTensor`).

## Model

| member | source | states |
|---|---|---|
| ImageUtils.Nv21Layout | app/src/main/java/com/example/facerecognition/utils/ImageUtils.java:54-59 | In the NV21 array, Y fills [0, ySize), V fills [ySize, ySize+vSize) and U fills the rest. Each byte is the byte at the same offset of its plane. |
| ImageUtils.Nv21RoundTrip | app/src/main/java/com/example/facerecognition/utils/ImageUtils.java:50-59 | Splitting the assembled array at ySize and ySize+vSize gives back the Y, U and V planes. So the assembly loses and reorders nothing beyond swapping V before U. |
| ImageUtils.Nv21 | app/src/main/java/com/example/facerecognition/utils/ImageUtils.java:54 | The NV21 array is ySize+uSize+vSize bytes long. |
| ImageUtils.Yuv420888ToBitmap | app/src/main/java/com/example/facerecognition/utils/ImageUtils.java:44-66 | Copying the three planes into the array in place produces the NV21 layout. The result is the codec's decoding of that array compressed at quality 100. The three planes are left empty and the other fields of the frame unchanged. |
| ImageUtils.JpegToBitmap | app/src/main/java/com/example/facerecognition/utils/ImageUtils.java:68-73 | The result is the codec's decoding of the bytes remaining in the first plane. That plane is left empty; the rest of the frame is unchanged. |
| ImageUtils.DecodeYuv | app/src/main/java/com/example/facerecognition/utils/ImageUtils.java:44-66 | The codec decodes, at quality 100 and the frame's size, an array from which the Y, U and V planes split back. Emptied planes hand it an empty array. |
| ImageUtils.DecodeJpeg | app/src/main/java/com/example/facerecognition/utils/ImageUtils.java:68-73 | The decoder sees exactly the bytes remaining in the first plane: any frame with the same first plane decodes the same. An emptied plane hands it an empty array. |
| ImageUtils.DecodeByFormat | app/src/main/java/com/example/facerecognition/utils/ImageUtils.java:27-37 | YUV_420_888 goes to the YUV decoder and JPEG to the JPEG decoder. Any other format fails with "Unsupported format". It fails exactly for another format or a missing plane. |
| ImageUtils.DecodedFrame | app/src/main/java/com/example/facerecognition/utils/ImageUtils.java:25-42 | Failures pass through. A null decode stays null. Only a non-null bitmap is rotated, by the frame's rotation. At 0 degrees the decoded bitmap is returned untouched. |
| ImageUtils.ImageProxyToBitmap | app/src/main/java/com/example/facerecognition/utils/ImageUtils.java:25-42 | The method's result equals `DecodedFrame`, whose properties are stated above. Afterwards the frame is `Consumed`, and the frame is not closed. |
| ImageUtils.Drained | app/src/main/java/com/example/facerecognition/utils/ImageUtils.java:57-59 | The first n plane buffers are empty. Every other buffer and the number of planes are unchanged. |
| ImageUtils.Consumed | app/src/main/java/com/example/facerecognition/utils/ImageUtils.java:44-73 | A conversion changes only the plane buffers. A YUV frame loses the contents of planes 0 to 2, and a JPEG frame those of plane 0. A frame whose conversion throws before reading (another format or a missing plane) is unchanged. |
| ImageUtils.ConsumedTwice | app/src/main/java/com/example/facerecognition/utils/ImageUtils.java:50-52 | A second conversion drains nothing more: consuming twice is consuming once. |
| ImageUtils.ConsumedJpegDecodesNothing | app/src/main/java/com/example/facerecognition/utils/ImageUtils.java:68-72 | If the decoder returns null for an empty array, a JPEG frame converted a second time yields null. |
| ImageUtils.ConsumedYuvCompressesEmptyArray | app/src/main/java/com/example/facerecognition/utils/ImageUtils.java:50-65 | A YUV frame converted a second time compresses an empty NV21 array, at the frame's width and height. |
| ImageUtils.ImageProxy.Close | app/src/main/java/com/example/facerecognition/MainActivity.java:275 | close() counts one more close and leaves the frame's buffers as they are. |
| ImageUtils.RotateQuarter | app/src/main/java/com/example/facerecognition/utils/ImageUtils.java:128-139 | A quarter turn swaps width and height. |
| ImageUtils.RotateQuarterMovesPixel | app/src/main/java/com/example/facerecognition/utils/ImageUtils.java:128-139 | A clockwise quarter turn moves pixel (x, y) to column height-1-y of row x. |
| ImageUtils.QuarterTurns | app/src/main/java/com/example/facerecognition/utils/ImageUtils.java:128-139 | An even number of quarter turns keeps the dimensions; an odd number swaps them. |
| ImageUtils.RotateBitmap | app/src/main/java/com/example/facerecognition/utils/ImageUtils.java:125-144 | At 0 degrees the result is the input bitmap itself. An even number of quarter turns keeps the dimensions and an odd number swaps them. |
| ImageUtils.ExifRotationDegrees | app/src/main/java/com/example/facerecognition/utils/ImageUtils.java:97-114 | ROTATE_90 maps to 90, ROTATE_180 to 180 and ROTATE_270 to 270, each if and only if. Every other value, NORMAL included, maps to 0. |
| ImageUtils.UriToBitmap | app/src/main/java/com/example/facerecognition/utils/ImageUtils.java:75-123 | A null context or URI gives null. The result is an IOException exactly when the content cannot be read. It is non-null exactly when the picture decodes. Without an Exif stream or an orientation tag, the decoded bitmap is returned unrotated. With an Exif stream, the decoded bitmap is turned by `ExifRotationDegrees` of the tag, and a missing tag reads as ORIENTATION_NORMAL. |
| ImageUtils.CropRegion | app/src/main/java/com/example/facerecognition/utils/ImageUtils.java:150-153 | The corner is clamped to 0 and kept when non-negative. The region never passes the right or bottom edge and is never larger than the box. Each extent is the box's, or it is cut at the far edge. |
| ImageUtils.SubBitmap | app/src/main/java/com/example/facerecognition/utils/ImageUtils.java:155 | The cut region has the requested size. Each of its pixels is the source pixel at the same offset from the region's corner. |
| ImageUtils.CropBitmap | app/src/main/java/com/example/facerecognition/utils/ImageUtils.java:146-161 | A null bitmap gives null. Otherwise the result is non-null exactly when width = min(bw-x, right-left) and height = min(bh-y, bottom-top) are both positive, with x = max(0, left) and y = max(0, top). |
| ImageUtils.CropInsideBitmap | app/src/main/java/com/example/facerecognition/utils/ImageUtils.java:150-156 | A crop lies inside [0,bw)×[0,bh) and copies the region's pixels. |
| ImageUtils.CropOfBoxWithCornerInside | app/src/main/java/com/example/facerecognition/utils/ImageUtils.java:150-156 | For a box with its corner in the positive quadrant, the crop is the part of the box inside the bitmap. It is non-null exactly when that part is non-empty. |
| ImageUtils.CropKeepsWidthLeftOfBitmap | app/src/main/java/com/example/facerecognition/utils/ImageUtils.java:150-152 | For left < 0 the crop starts at column 0, and its width is min(bw, right-left): the width is not reduced. |
| ImageUtils.CropOfBoxLeftOfBitmap | app/src/main/java/com/example/facerecognition/utils/ImageUtils.java:150-156 | The box (-50,10)-(-10,50), lying wholly left of the bitmap, still yields a 40×40 crop. |
| ImageUtils.ScaledIndex | app/src/main/java/com/example/facerecognition/utils/ImageUtils.java:166 | The sampled source row or column always lies inside the source bitmap. |
| ImageUtils.ScaleBitmap | app/src/main/java/com/example/facerecognition/utils/ImageUtils.java:166 | The scaled bitmap is targetWidth × targetHeight. |
| ImageUtils.CropAndScaleBitmap | app/src/main/java/com/example/facerecognition/utils/ImageUtils.java:163-169 | The result is null exactly when cropBitmap's is. Otherwise it is targetWidth × targetHeight. |
| ImageUtils.Channel | app/src/main/java/com/example/facerecognition/utils/ImageUtils.java:184-186 | The shifted and masked channel is a byte value in [0, 255]. |
| ImageUtils.Normalized | app/src/main/java/com/example/facerecognition/utils/ImageUtils.java:177-186 | (channel - 0) / 255 lies in [0, 1], not in the [-1, 1] the comment claims. |
| ImageUtils.GetPixels | app/src/main/java/com/example/facerecognition/utils/ImageUtils.java:175-176 | getPixels fills width × height ints. |
| ImageUtils.FlattenAt | app/src/main/java/com/example/facerecognition/utils/ImageUtils.java:176 | getPixels with stride = width puts pixel (i, j) at index i·width + j. |
| ImageUtils.InputTensor | app/src/main/java/com/example/facerecognition/utils/ImageUtils.java:171-188 | The tensor holds 3·W·H floats, all in [0, 1]. |
| ImageUtils.TensorAt | app/src/main/java/com/example/facerecognition/utils/ImageUtils.java:180-188 | Float 3p + c is channel c (R, G, B) of the p-th pixel in getPixels order. |
| ImageUtils.TensorLayout | app/src/main/java/com/example/facerecognition/utils/ImageUtils.java:180-188 | Channel c of pixel (i, j) is float 3·(i·W + j) + c: row-major, three channels per pixel in R, G, B order. |
| ImageUtils.PutRgb | app/src/main/java/com/example/facerecognition/utils/ImageUtils.java:184-186 | The three putFloat calls write R, G and B of one pixel at the position and leave every other float unchanged. |
| ImageUtils.PutRow | app/src/main/java/com/example/facerecognition/utils/ImageUtils.java:182-187 | After the inner loop, the floats of every pixel up to the end of the row match the tensor. |
| ImageUtils.PreprocessImage | app/src/main/java/com/example/facerecognition/utils/ImageUtils.java:171-190 | The buffer has W·H·3·4 bytes. Its contents are exactly the input tensor of the bitmap scaled to W × H. |
| Matching.SquaredDistance | app/src/main/java/com/example/facerecognition/MainActivity.java:423-426 | The accumulated sum of squared differences is never negative. |
| Matching.EuclideanDistance | app/src/main/java/com/example/facerecognition/MainActivity.java:419-428 | The result is -1 exactly when an embedding is null or the lengths differ. Otherwise it is the root of a non-negative sum. |
| Matching.CalculateDistance | app/src/main/java/com/example/facerecognition/MainActivity.java:419-428 | The loop's result equals `EuclideanDistance`. |
| Matching.WithinThreshold | app/src/main/java/com/example/facerecognition/MainActivity.java:291 | The test on the radicand: the -1 sentinel passes, and a root passes exactly when its non-negative radicand is at most 1.0. |
| Matching.WithinThresholdOnRoot | app/src/main/java/com/example/facerecognition/MainActivity.java:291 | For the non-negative root t of s, the test on the radicand is the source's test `t <= 1.0`. |
| Matching.CompareFace | app/src/main/java/com/example/facerecognition/MainActivity.java:285-302 | One face matches exactly when a reference is installed and the face's embedding exists and is within the threshold. A match clears the reference; otherwise it stays. |
| Matching.MatchAll | app/src/main/java/com/example/facerecognition/MainActivity.java:285-302 | The comparison loop over a list of per-face embeddings matches at most once. Without a match the reference is kept; a match needs a reference and clears it. |
| Matching.RootComparison | app/src/main/java/com/example/facerecognition/MainActivity.java:427 | For t = sqrt(s), t <= 1.0 holds exactly when s <= 1.0. So the model can compare the sum with the squared threshold. The proof goes through the signs of (t - 1)(t + 1). |
| Matching.SquaredDistanceSymmetric | app/src/main/java/com/example/facerecognition/MainActivity.java:424-426 | The sum is the same with the two embeddings swapped. |
| Matching.SquaredDistanceToSelf | app/src/main/java/com/example/facerecognition/MainActivity.java:424-426 | The sum is 0 between an embedding and itself. |
| Matching.DistanceSymmetricAndReflexive | app/src/main/java/com/example/facerecognition/MainActivity.java:419-428 | calculateDistance(a, b) = calculateDistance(b, a), and it is 0 from an embedding to itself. |
| Matching.IdenticalEmbeddingsMatch | app/src/main/java/com/example/facerecognition/MainActivity.java:289-291 | A face whose embedding equals the reference always passes `distance <= 1.0f`. |
| Matching.SentinelPassesThreshold | app/src/main/java/com/example/facerecognition/MainActivity.java:420-422 | The -1 returned for null or unequal-length embeddings passes the `<= 1.0f` test. |
| Matching.NoReferenceNoMatch | app/src/main/java/com/example/facerecognition/MainActivity.java:288 | Without a reference no face is compared. Nothing matches and nothing changes. |
| Matching.AtMostOneMatchPerFrame | app/src/main/java/com/example/facerecognition/MainActivity.java:285-302 | Over a list of per-face embeddings, at most one matches, because later faces see a null reference. The loop matches exactly when some embedding is within the threshold. The reference is cleared exactly when it matches. A whole frame is `FrameMatchesIffSomeFaceMatches`. |
| Matching.MatchNeverInstalls | app/src/main/java/com/example/facerecognition/MainActivity.java:285-302 | The loop over a list of embeddings leaves the reference unchanged or clears it, and matches at most once. |
| ReferenceLifecycle.Step | app/src/main/java/com/example/facerecognition/MainActivity.java:333-382 | Install sets the reference and queues one more timeout. A failed enroll clears the reference. A rejected enroll (several faces) changes nothing. A match clears the reference and every queued timeout (lines 296-301). A timeout clears the reference blindly (line 146). onDestroy drops the queue (line 437). |
| ReferenceLifecycle.ReferenceComesFromInstall | app/src/main/java/com/example/facerecognition/MainActivity.java:353 | A reference held after any sequence of events was held before it or installed by one of its enrolls. |
| ReferenceLifecycle.ClearedStaysClearedWithoutInstall | app/src/main/java/com/example/facerecognition/MainActivity.java:146 | Once cleared, the reference stays null until an enroll installs one. |
| ReferenceLifecycle.PendingTimeoutsCountInstalls | app/src/main/java/com/example/facerecognition/MainActivity.java:356 | Queued timeout runs never outnumber the successful enrolls that posted them. |
| ReferenceLifecycle.MatchCancelsAllTimeouts | app/src/main/java/com/example/facerecognition/MainActivity.java:296-301 | After a match, with no new install, the state stays "no reference, nothing queued" whatever else happens. |
| ReferenceLifecycle.StaleTimeoutClearsNewerInstall | app/src/main/java/com/example/facerecognition/MainActivity.java:144-149 | Enroll, enroll again, then one timeout: the second reference is cleared and one run stays queued. |
| FaceRecognition.FaceEmbedding | app/src/main/java/com/example/facerecognition/MainActivity.java:384-401 | With no interpreter the result is null. Otherwise the model runs on the input tensor of the face scaled to the input size. The result is non-null exactly when that output exists and has embeddingSize floats, and it is then that output. |
| FaceRecognition.FaceEmbeddingOf | app/src/main/java/com/example/facerecognition/MainActivity.java:279-286 | A face whose crop is null has no embedding. A face whose crop exists has the embedding of the cropped and scaled bitmap. An embedding always has the model's output length. |
| FaceRecognition.FaceEmbeddings | app/src/main/java/com/example/facerecognition/MainActivity.java:272-286 | There is one embedding per detected face, in the detector's order. |
| FaceRecognition.PipelineNeverSeesSentinel | app/src/main/java/com/example/facerecognition/MainActivity.java:286-289 | With a reference of the model's output length, no face's distance is the -1 sentinel. |
| FaceRecognition.FaceTurn | app/src/main/java/com/example/facerecognition/MainActivity.java:273-309 | One face's turn ends the listener with an exception exactly when the conversion fails, and with the null-bitmap exit exactly when it yields null; both keep the reference. A compared face matches at most once, and a match needs and clears the reference. |
| FaceRecognition.FrameLoop | app/src/main/java/com/example/facerecognition/MainActivity.java:272-310 | The loop over the faces, given what the first conversion and the later conversions yield. With no faces nothing changes. A first conversion that throws or yields null ends the loop at the first face, unchanged. At most one face matches, and a match needs and clears the reference. |
| FaceRecognition.FrameSpec | app/src/main/java/com/example/facerecognition/MainActivity.java:269-319 | The same, for a frame: the first face is cut from the frame's conversion, every later face from the conversion of the `Consumed` frame. With no faces the frame finishes without change. A conversion exception or a null bitmap ends it at the first face, unchanged. At most one face matches, and a match needs and clears the reference. |
| FaceRecognition.SameBitmapLoopIsMatchAll | app/src/main/java/com/example/facerecognition/MainActivity.java:272-310 | When every conversion yields the same bitmap, the loop finishes and its reference and match count are `MatchAll` over the faces' embeddings. |
| FaceRecognition.FrameMatchesIffSomeFaceMatches | app/src/main/java/com/example/facerecognition/MainActivity.java:272-302 | A frame with a reference matches exactly when its first conversion yields a bitmap and either the first face cut from it is within the threshold, or the consumed frame still converts and some later face cut from that second bitmap is. |
| FaceRecognition.JpegFrameComparesOnlyFirstFace | app/src/main/java/com/example/facerecognition/MainActivity.java:272-278 | For a JPEG frame with two or more faces, when empty bytes decode to null: only the first face is compared, and the listener takes the null-bitmap exit. |
| FaceRecognition.Closes | app/src/main/java/com/example/facerecognition/MainActivity.java:274-314 | The frame is closed twice on the null-bitmap path and once on every other path. |
| FaceRecognition.EnrollEvent | app/src/main/java/com/example/facerecognition/MainActivity.java:339-368 | More than one face is rejected and leaves the reference unchanged. No face, or one face whose crop or embedding fails, clears the reference. One embedded face installs its embedding, of the model's output length. Without an interpreter nothing is ever installed. |
| FaceRecognition.MainActivity.constructor | app/src/main/java/com/example/facerecognition/MainActivity.java:74-80 | Sizes default to 112, 112 and 128, or are read from a loaded model. There is no reference, nothing is queued and the flag is clear. |
| FaceRecognition.MainActivity.GetInputOutputDetails | app/src/main/java/com/example/facerecognition/MainActivity.java:166-175 | Input dimension 1 becomes the height, input dimension 2 the width, and output dimension 1 the embedding size. |
| FaceRecognition.MainActivity.Analyze | app/src/main/java/com/example/facerecognition/MainActivity.java:220-227 | A frame is admitted only if the flag was clear; it is then in flight with the flag set. A frame arriving while busy is closed at once, and the flag and the in-flight frame stay as they were. |
| FaceRecognition.MainActivity.DetectFacesAndRecognize | app/src/main/java/com/example/facerecognition/MainActivity.java:244-265 | A null media image or an InputImage failure closes the frame once and clears the flag. Otherwise the frame waits for the detector with the flag set. |
| FaceRecognition.MainActivity.OnFrameDetectionFailed | app/src/main/java/com/example/facerecognition/MainActivity.java:320-325 | A detector failure closes the frame once and clears the flag. The reference is unchanged. |
| FaceRecognition.MainActivity.OnFrameFacesDetected | app/src/main/java/com/example/facerecognition/MainActivity.java:269-319 | The reference and the match messages follow `FrameSpec`. A match is `Step(Matched)` on the reference state. The frame is closed `Closes(exit)` times, and the flag is clear afterwards. A frame with faces is left `Consumed`. |
| FaceRecognition.MainActivity.CompareFaces | app/src/main/java/com/example/facerecognition/MainActivity.java:270-314 | The per-face loop reaches `FrameSpec`'s reference, match count and exit. On the null-bitmap path it closes the frame once. A frame with faces is left `Consumed`. |
| FaceRecognition.MainActivity.CompareFrameFace | app/src/main/java/com/example/facerecognition/MainActivity.java:273-309 | One face's turn: an exception ends the block, a null bitmap closes the frame once, and otherwise the face is compared as in `FaceTurn`. The frame is left `Consumed`. |
| FaceRecognition.MainActivity.CompareOneFace | app/src/main/java/com/example/facerecognition/MainActivity.java:279-309 | One face: a match clears the reference, posts one message and removes the queued timeouts. Otherwise nothing changes. |
| FaceRecognition.MainActivity.GetFaceEmbedding | app/src/main/java/com/example/facerecognition/MainActivity.java:384-401 | The method's result equals `FaceEmbedding`. |
| FaceRecognition.MainActivity.ProcessSelectedImage | app/src/main/java/com/example/facerecognition/MainActivity.java:333-382 | A decoded picture goes to the detector and the reference is left alone. A null picture or an IOException clears the reference. |
| FaceRecognition.MainActivity.OnEnrollDetectionFailed | app/src/main/java/com/example/facerecognition/MainActivity.java:370-373 | A detector failure on the picked picture clears the reference. |
| FaceRecognition.MainActivity.OnEnrollFacesDetected | app/src/main/java/com/example/facerecognition/MainActivity.java:339-369 | The new reference state is `Step` of the old one by `EnrollEvent`. |
| FaceRecognition.MainActivity.OnTimeout | app/src/main/java/com/example/facerecognition/MainActivity.java:144-147 | A queued timeout run clears the reference, whichever it is, and leaves one run fewer queued. |
| FaceRecognition.MainActivity.OnDestroy | app/src/main/java/com/example/facerecognition/MainActivity.java:430-438 | removeCallbacks drops every queued timeout run. |

## Left out

- Floating point: embeddings, distances and tensor values are reals.
  - Float rounding is not modelled.
  - The square root is not modelled. The distance keeps its radicand, and `RootComparison`
    shows that the threshold test on the root is the same test on the radicand.
- Matching: that the distance is zero only between equal embeddings is not proved. The
  project proves only that the distance from an embedding to itself is zero.
- ImageUtils.ScaleBitmap: samples the nearest pixel instead of Android's bilinear filtering. Only
  the dimensions are stated.
- ImageUtils.RotateBitmap: takes multiples of 90 degrees only, the rotations CameraX and the Exif
  switch produce. Filtering and arbitrary angles are not modelled.
- ImageUtils.CropAndScaleBitmap: requires positive target sizes. createScaledBitmap throws for
  others, and the activity always passes the model's positive input size.
- ImageUtils.PreprocessImage: requires positive input sizes, for the same reason.
  - The ByteBuffer is an array of floats. Byte order is not modelled.
  - The 32-bit overflow of `inputWidth * inputHeight * 3 * 4` is not modelled.
- Java `int` overflow in `Rect.width()`, `Rect.height()` and the crop arithmetic is not modelled.
  Coordinates are unbounded integers.
- FaceRecognition.MainActivity.constructor: requires a loaded model's tensor shapes to have the
  dimensions `getInputOutputDetails` reads, positive input sizes and a non-negative output size.
  A shorter shape array throws an exception that `onCreate` does not catch.
- FaceRecognition.MainActivity.GetInputOutputDetails: requires such shapes too.
- FaceRecognition.MainActivity.OnTimeout: requires a queued run. The runnable runs only when it
  was posted.
- Concurrency:
  - The analyzer's executor thread and the main thread are not modelled; the listeners run one
    at a time.
  - `compareAndSet` is a test and a set in one step.
  - The 10-second delay is not modelled; only the order of events is.
- Foreign calls are inputs:
  - ML Kit face detection: the bounding boxes, or a failure event;
  - TFLite inference and tensor shapes: `Interpreter`;
  - JPEG compression and decoding: `Codec`;
  - `InputImage.fromMediaImage` throwing: a boolean.
- `uriToBitmap`'s stream handling: what the content resolver yields is a `UriContent` value,
  and any IOException is one error.
- Missing planes: `getPlanes()` arrays too short for the format are an error value
  (`MissingPlane`), as the index exception they cause would be.
- `loadModelFile`: asset I/O; a failed load is an absent interpreter.
- Camera setup, permissions, the image picker, Toasts and logging: UI and platform plumbing.
  - The match message is counted (`matchSignals`).
- FaceRecognition.MainActivity.OnDestroy: closing the interpreter (MainActivity.java:434-436) is not
  modelled. The model's interpreter is a pure function and stays usable.
- What the JPEG codec makes of an empty NV21 array, or of empty bytes, is the graphics library's
  behaviour. `JpegFrameComparesOnlyFirstFace` takes "empty bytes decode to null" as a hypothesis.
- ML Kit's detection of the frame (MainActivity.java:256, 268): the model takes it to leave the
  plane buffers where they were, so the first conversion in the listener reads them whole. The
  source text does not settle what the detector does to those buffers.
- `Bitmap.recycle()`: memory management with no effect on the results.
- `calculateCosineSimilarity`: it is never called.
- `DisplayImageActivity` is not part of this model.
