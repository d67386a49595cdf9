/**
 * The image utilities of the app (utils/ImageUtils.java): turning a camera frame or a picked
 * picture into an upright Bitmap, cutting a face out of it, and laying a Bitmap out as the
 * float tensor the embedding model reads.
 *
 * Android's graphics library (JPEG compression and decoding) is reached through a `Codec`
 * value; rotation by a quarter turn, cropping and scaling are modelled on the pixel grid.
 */
module ImageUtils {
  import opened Wrappers
  import Grid

  /** One ARGB_8888 pixel as Bitmap.getPixels hands it out: a 32-bit Java int. */
  type Argb = bv32

  /** A pixel grid, row 0 at the top; `rows[y][x]` is the pixel in column x of row y. */
  datatype Raster = Raster(width: int, height: int, rows: seq<seq<Argb>>) {
    predicate Valid() {
      && width > 0
      && height > 0
      && |rows| == height
      && forall y :: 0 <= y < |rows| ==> |rows[y]| == width
    }
  }

  /** android.graphics.Bitmap: Android never creates one with a zero or negative dimension. */
  type Bitmap = r: Raster | r.Valid() witness Raster(1, 1, [[0]])

  /** android.graphics.Rect; like Rect.width() and Rect.height(), the extents may be negative. */
  datatype Rect = Rect(left: int, top: int, right: int, bottom: int) {
    function Width(): int { right - left }
    function Height(): int { bottom - top }
  }

  /** ImageFormat constants. */
  const YUV_420_888: int := 0x23
  const JPEG: int := 0x100

  /** The JPEG quality yuv420888ToBitmap compresses the NV21 frame with. */
  const JPEG_QUALITY: int := 100

  /** Rotations in this app: CameraX reports multiples of 90, and so does the Exif mapping below. */
  type QuarterTurnDegrees = d: int | d % 90 == 0

  /** The exceptions the utilities let escape. */
  datatype ImageError =
    | UnsupportedFormat   // imageProxyToBitmap's "Unsupported format"
    | MissingPlane        // getPlanes() shorter than the format needs (an index out of bounds)
    | IoError             // an IOException from the content resolver or the Exif reader

  /** What an ImageProxy carries: format, the bytes remaining in each plane, size, rotation. */
  datatype FrameData = FrameData(
    format: int,
    planes: seq<seq<bv8>>,
    width: int,
    height: int,
    rotationDegrees: QuarterTurnDegrees,
    hasMediaImage: bool)   // whether ImageProxy.getImage() is non-null

  /** The Android library calls the utilities delegate to. */
  datatype Codec = Codec(
    /** new YuvImage(nv21, NV21, width, height, null).compressToJpeg(whole frame, quality, out) */
    compressToJpeg: (seq<bv8>, int, int, int) -> seq<bv8>,
    /** BitmapFactory.decodeByteArray: null when the bytes do not decode */
    decodeByteArray: seq<bv8> -> Option<Bitmap>)

  function Max(a: int, b: int): int { if a < b then b else a }
  function Min(a: int, b: int): int { if a < b then a else b }

  // ---------------------------------------------------------------------------------------
  // Format dispatch and NV21 assembly
  // ---------------------------------------------------------------------------------------

  /** The NV21 array yuv420888ToBitmap assembles: the Y plane, then the V plane, then the U plane. */
  function Nv21(y: seq<bv8>, u: seq<bv8>, v: seq<bv8>): (nv21: seq<bv8>)
    ensures |nv21| == |y| + |u| + |v|
  {
    y + v + u
  }

  /** Reads the three planes back out of an NV21 array whose Y and V planes have the given sizes. */
  function SplitNv21(nv21: seq<bv8>, ySize: nat, vSize: nat): (planes: (seq<bv8>, seq<bv8>, seq<bv8>))
    requires ySize + vSize <= |nv21|
    ensures |planes.0| == ySize && |planes.2| == vSize && |planes.1| == |nv21| - ySize - vSize
  {
    (nv21[..ySize], nv21[ySize + vSize..], nv21[ySize..ySize + vSize])
  }

  /** Every byte of the NV21 array is the byte at the same offset of its plane: Y, then V, then U. */
  lemma Nv21Layout(y: seq<bv8>, u: seq<bv8>, v: seq<bv8>)
    ensures forall k :: 0 <= k < |y| ==> Nv21(y, u, v)[k] == y[k]
    ensures forall k :: 0 <= k < |v| ==> Nv21(y, u, v)[|y| + k] == v[k]
    ensures forall k :: 0 <= k < |u| ==> Nv21(y, u, v)[|y| + |v| + k] == u[k]
  {
  }

  /** Splitting an assembled NV21 array at the plane sizes gives back the Y, U and V planes. */
  lemma Nv21RoundTrip(y: seq<bv8>, u: seq<bv8>, v: seq<bv8>)
    ensures SplitNv21(Nv21(y, u, v), |y|, |v|) == (y, u, v)
  {
    var nv21 := Nv21(y, u, v);
    assert nv21[..|y|] == y;
    assert nv21[|y| + |v|..] == u;
    assert nv21[|y|..|y| + |v|] == v;
  }

  /**
   * What the YUV_420_888 path decodes: the NV21 array, compressed to JPEG at quality 100 and the
   * frame's size, and decoded again. Emptied planes hand the compressor an empty array.
   */
  function DecodeYuv(frame: FrameData, codec: Codec): (r: Option<Bitmap>)
    requires |frame.planes| >= 3
    ensures var y, u, v := frame.planes[0], frame.planes[1], frame.planes[2];
      var nv21 := Nv21(y, u, v);
      && SplitNv21(nv21, |y|, |v|) == (y, u, v)
      && r == codec.decodeByteArray(codec.compressToJpeg(nv21, frame.width, frame.height, JPEG_QUALITY))
    ensures frame.planes[0] == [] && frame.planes[1] == [] && frame.planes[2] == [] ==>
      r == codec.decodeByteArray(codec.compressToJpeg([], frame.width, frame.height, JPEG_QUALITY))
  {
    Nv21RoundTrip(frame.planes[0], frame.planes[1], frame.planes[2]);
    var nv21 := Nv21(frame.planes[0], frame.planes[1], frame.planes[2]);
    codec.decodeByteArray(codec.compressToJpeg(nv21, frame.width, frame.height, JPEG_QUALITY))
  }

  /** What the JPEG path decodes: the bytes remaining in the first plane, and nothing else. */
  function DecodeJpeg(frame: FrameData, codec: Codec): (r: Option<Bitmap>)
    requires |frame.planes| >= 1
    ensures forall other: FrameData :: |other.planes| >= 1 && other.planes[0] == frame.planes[0] ==>
      r == codec.decodeByteArray(other.planes[0])
    ensures frame.planes[0] == [] ==> r == codec.decodeByteArray([])
  {
    codec.decodeByteArray(frame.planes[0])
  }

  /** The switch on the frame's format in imageProxyToBitmap, before rotation. */
  function DecodeByFormat(frame: FrameData, codec: Codec): (r: Result<Option<Bitmap>, ImageError>)
    ensures frame.format != YUV_420_888 && frame.format != JPEG ==> r == Failure(UnsupportedFormat)
    ensures frame.format == YUV_420_888 && |frame.planes| >= 3 ==> r == Success(DecodeYuv(frame, codec))
    ensures frame.format == JPEG && |frame.planes| >= 1 ==> r == Success(DecodeJpeg(frame, codec))
    ensures r.Failure? <==>
      (frame.format != YUV_420_888 && frame.format != JPEG)
      || (frame.format == YUV_420_888 && |frame.planes| < 3)
      || (frame.format == JPEG && |frame.planes| < 1)
  {
    if frame.format == YUV_420_888 then
      if |frame.planes| < 3 then Failure(MissingPlane) else Success(DecodeYuv(frame, codec))
    else if frame.format == JPEG then
      if |frame.planes| < 1 then Failure(MissingPlane) else Success(DecodeJpeg(frame, codec))
    else
      Failure(UnsupportedFormat)
  }

  /** imageProxyToBitmap as a value: decode by format, then rotate a decoded (non-null) bitmap upright. */
  function DecodedFrame(frame: FrameData, codec: Codec): (r: Result<Option<Bitmap>, ImageError>)
    ensures r.Failure? <==> DecodeByFormat(frame, codec).Failure?
    ensures r.Failure? ==> r == DecodeByFormat(frame, codec)
    ensures r.Success? ==> (r.value.None? <==> DecodeByFormat(frame, codec).value.None?)
    ensures r.Success? && r.value.Some? ==>
      r.value.value == RotateBitmap(DecodeByFormat(frame, codec).value.value, frame.rotationDegrees)
    ensures frame.rotationDegrees == 0 ==> r == DecodeByFormat(frame, codec)
  {
    match DecodeByFormat(frame, codec)
    case Failure(e) => Failure(e)
    case Success(None) => Success(None)
    case Success(Some(b)) => Success(Some(RotateBitmap(b, frame.rotationDegrees)))
  }

  // ---------------------------------------------------------------------------------------
  // Plane buffers: what a conversion leaves behind
  // ---------------------------------------------------------------------------------------

  /** The plane buffers with the first n read to their end: nothing remains in them. */
  function Drained(planes: seq<seq<bv8>>, n: nat): (d: seq<seq<bv8>>)
    requires n <= |planes|
    ensures |d| == |planes|
    ensures forall k :: 0 <= k < |d| ==> d[k] == (if k < n then [] else planes[k])
  {
    seq(|planes|, k requires 0 <= k < |planes| => if k < n then [] else planes[k])
  }

  /**
   * The frame after one imageProxyToBitmap. The conversion sizes its arrays with remaining()
   * and copies with relative get calls, which leave each buffer it reads at its end, and
   * getBuffer() hands out the same buffer every time: the YUV path empties the three planes, the
   * JPEG path the first. A conversion that throws before reading leaves every buffer as it was.
   */
  function Consumed(frame: FrameData): (c: FrameData)
    ensures c.format == frame.format && c.width == frame.width && c.height == frame.height
    ensures c.rotationDegrees == frame.rotationDegrees && c.hasMediaImage == frame.hasMediaImage
    ensures |c.planes| == |frame.planes|
    ensures frame.format == YUV_420_888 && |frame.planes| >= 3 ==>
      forall k :: 0 <= k < |c.planes| ==> c.planes[k] == (if k < 3 then [] else frame.planes[k])
    ensures frame.format == JPEG && |frame.planes| >= 1 ==>
      forall k :: 0 <= k < |c.planes| ==> c.planes[k] == (if k < 1 then [] else frame.planes[k])
    ensures !(frame.format == YUV_420_888 && |frame.planes| >= 3) && !(frame.format == JPEG && |frame.planes| >= 1) ==>
      c == frame
  {
    if frame.format == YUV_420_888 && |frame.planes| >= 3 then frame.(planes := Drained(frame.planes, 3))
    else if frame.format == JPEG && |frame.planes| >= 1 then frame.(planes := Drained(frame.planes, 1))
    else frame
  }

  /** Converting again reads nothing more: the buffers a conversion drains stay drained. */
  lemma ConsumedTwice(frame: FrameData)
    ensures Consumed(Consumed(frame)) == Consumed(frame)
  {
    var c := Consumed(frame);
    var cc := Consumed(c);
    assert cc.planes == c.planes;
  }

  /**
   * A JPEG frame converted a second time hands decodeByteArray an empty array; BitmapFactory
   * returns null for bytes that do not decode, so the second conversion yields null.
   */
  lemma ConsumedJpegDecodesNothing(frame: FrameData, codec: Codec)
    requires frame.format == JPEG && |frame.planes| >= 1
    requires codec.decodeByteArray([]) == None
    ensures DecodedFrame(Consumed(frame), codec) == Success(None)
  {
    assert Consumed(frame).planes[0] == [];
  }

  /** A YUV frame converted a second time hands the codec an empty NV21 array of the frame's size. */
  lemma ConsumedYuvCompressesEmptyArray(frame: FrameData, codec: Codec)
    requires frame.format == YUV_420_888 && |frame.planes| >= 3
    ensures DecodeByFormat(Consumed(frame), codec) ==
      Success(codec.decodeByteArray(codec.compressToJpeg([], frame.width, frame.height, JPEG_QUALITY)))
  {
    var c := Consumed(frame);
    assert c.planes[0] == [] && c.planes[1] == [] && c.planes[2] == [];
    assert Nv21(c.planes[0], c.planes[1], c.planes[2]) == [];
  }

  /**
   * androidx.camera.core.ImageProxy: the frame's format, size and rotation, the bytes remaining
   * in each plane's buffer, and how often close() was called on it.
   */
  class ImageProxy {
    var frame: FrameData
    var closeCount: nat

    constructor (frame: FrameData)
      ensures this.frame == frame && closeCount == 0
    {
      this.frame := frame;
      closeCount := 0;
    }

    /** ImageProxy.close(), which hands the buffer back to the camera. */
    method Close()
      modifies this
      ensures closeCount == old(closeCount) + 1 && frame == old(frame)
    {
      closeCount := closeCount + 1;
    }
  }

  /** yuv420888ToBitmap: reads the three planes into one NV21 array, then hands it to the codec. */
  method Yuv420888ToBitmap(proxy: ImageProxy, codec: Codec) returns (bitmap: Option<Bitmap>)
    requires |proxy.frame.planes| >= 3
    modifies proxy
    ensures bitmap == DecodeYuv(old(proxy.frame), codec)
    ensures proxy.frame == old(proxy.frame).(planes := Drained(old(proxy.frame.planes), 3))
    ensures proxy.closeCount == old(proxy.closeCount)
  {
    var frame := proxy.frame;
    var yBuffer, uBuffer, vBuffer := frame.planes[0], frame.planes[1], frame.planes[2];
    var ySize, uSize, vSize := |yBuffer|, |uBuffer|, |vBuffer|;
    var nv21 := new bv8[ySize + uSize + vSize];
    forall k | 0 <= k < ySize {
      nv21[k] := yBuffer[k];
    }
    forall k | 0 <= k < vSize {
      nv21[ySize + k] := vBuffer[k];
    }
    forall k | 0 <= k < uSize {
      nv21[ySize + vSize + k] := uBuffer[k];
    }
    Nv21Layout(yBuffer, uBuffer, vBuffer);
    assert nv21[..] == Nv21(yBuffer, uBuffer, vBuffer);
    // the three relative gets leave their buffers at the end
    proxy.frame := frame.(planes := Drained(frame.planes, 3));
    var jpeg := codec.compressToJpeg(nv21[..], frame.width, frame.height, JPEG_QUALITY);
    bitmap := codec.decodeByteArray(jpeg);
  }

  /** jpegToBitmap: reads the first plane's bytes and decodes them. */
  method JpegToBitmap(proxy: ImageProxy, codec: Codec) returns (bitmap: Option<Bitmap>)
    requires |proxy.frame.planes| >= 1
    modifies proxy
    ensures bitmap == DecodeJpeg(old(proxy.frame), codec)
    ensures proxy.frame == old(proxy.frame).(planes := Drained(old(proxy.frame.planes), 1))
    ensures proxy.closeCount == old(proxy.closeCount)
  {
    var buffer := proxy.frame.planes[0];
    var bytes := new bv8[|buffer|];
    forall k | 0 <= k < |buffer| {
      bytes[k] := buffer[k];
    }
    assert bytes[..] == buffer;
    // the relative get leaves the buffer at its end
    proxy.frame := proxy.frame.(planes := Drained(proxy.frame.planes, 1));
    bitmap := codec.decodeByteArray(bytes[..]);
  }

  /**
   * imageProxyToBitmap: dispatches on the format, throws on any other, rotates a decoded bitmap;
   * the planes it reads are left empty.
   */
  method ImageProxyToBitmap(proxy: ImageProxy, codec: Codec) returns (r: Result<Option<Bitmap>, ImageError>)
    modifies proxy
    ensures r == DecodedFrame(old(proxy.frame), codec)
    ensures proxy.frame == Consumed(old(proxy.frame))
    ensures proxy.closeCount == old(proxy.closeCount)
  {
    var bitmap: Option<Bitmap>;
    var format := proxy.frame.format;
    if format == YUV_420_888 {
      if |proxy.frame.planes| < 3 {
        return Failure(MissingPlane);
      }
      bitmap := Yuv420888ToBitmap(proxy, codec);
    } else if format == JPEG {
      if |proxy.frame.planes| < 1 {
        return Failure(MissingPlane);
      }
      bitmap := JpegToBitmap(proxy, codec);
    } else {
      return Failure(UnsupportedFormat);
    }
    if bitmap.Some? {
      bitmap := Some(RotateBitmap(bitmap.value, proxy.frame.rotationDegrees));
    }
    r := Success(bitmap);
  }

  // ---------------------------------------------------------------------------------------
  // Rotation
  // ---------------------------------------------------------------------------------------

  /**
   * One clockwise quarter turn, as Matrix.postRotate(90) applies it on Android's y-down axes:
   * row y' of the result is column y' of the source read from the bottom row up.
   */
  function RotateQuarter(b: Bitmap): (r: Bitmap)
    ensures r.width == b.height && r.height == b.width
  {
    Raster(b.height, b.width,
      seq(b.width, y' requires 0 <= y' < b.width =>
        seq(b.height, x' requires 0 <= x' < b.height => b.rows[b.height - 1 - x'][y'])))
  }

  /** A quarter turn carries the pixel in column x of row y to column height-1-y of row x. */
  lemma RotateQuarterMovesPixel(b: Bitmap, x: int, y: int)
    requires 0 <= x < b.width && 0 <= y < b.height
    ensures RotateQuarter(b).rows[x][b.height - 1 - y] == b.rows[y][x]
  {
  }

  /** n clockwise quarter turns. */
  function QuarterTurns(b: Bitmap, n: nat): (r: Bitmap)
    ensures n % 2 == 0 ==> r.width == b.width && r.height == b.height
    ensures n % 2 == 1 ==> r.width == b.height && r.height == b.width
  {
    if n == 0 then b else RotateQuarter(QuarterTurns(b, n - 1))
  }

  /** rotateBitmap: the bitmap itself at 0 degrees, otherwise a rotated copy. */
  function RotateBitmap(bitmap: Bitmap, rotationDegrees: QuarterTurnDegrees): (r: Bitmap)
    ensures rotationDegrees == 0 ==> r == bitmap
    ensures (rotationDegrees / 90) % 2 == 0 ==> r.width == bitmap.width && r.height == bitmap.height
    ensures (rotationDegrees / 90) % 2 == 1 ==> r.width == bitmap.height && r.height == bitmap.width
  {
    if rotationDegrees == 0 then bitmap else QuarterTurns(bitmap, (rotationDegrees / 90) % 4)
  }

  // ---------------------------------------------------------------------------------------
  // Picked images: Exif orientation
  // ---------------------------------------------------------------------------------------

  /** Values of the Exif Orientation tag (tag 0x0112 of the Exif standard, CIPA DC-008). */
  const ORIENTATION_NORMAL: int := 1
  const ORIENTATION_ROTATE_180: int := 3
  const ORIENTATION_ROTATE_90: int := 6
  const ORIENTATION_ROTATE_270: int := 8

  /** The switch in uriToBitmap: three rotating orientations, and 0 degrees for every other value. */
  function ExifRotationDegrees(orientation: int): (degrees: QuarterTurnDegrees)
    ensures degrees == 0 || degrees == 90 || degrees == 180 || degrees == 270
    ensures degrees == 90 <==> orientation == ORIENTATION_ROTATE_90
    ensures degrees == 180 <==> orientation == ORIENTATION_ROTATE_180
    ensures degrees == 270 <==> orientation == ORIENTATION_ROTATE_270
  {
    if orientation == ORIENTATION_ROTATE_90 then 90
    else if orientation == ORIENTATION_ROTATE_180 then 180
    else if orientation == ORIENTATION_ROTATE_270 then 270
    else 0
  }

  /** What the content resolver yields for a picked image's URI. */
  datatype UriContent =
    | Unreadable    // openInputStream, a stream's close or the Exif reader threw an IOException
    | Readable(
        decoded: Option<Bitmap>,      // null when the first stream is null or does not decode
        exifStream: bool,             // whether the second openInputStream is non-null
        orientationTag: Option<int>)  // the Orientation tag, when the image has one

  /** uriToBitmap: null for a null context or URI; otherwise the decoded bitmap, turned upright. */
  function UriToBitmap(hasContext: bool, hasUri: bool, content: UriContent): (r: Result<Option<Bitmap>, ImageError>)
    ensures !hasContext || !hasUri ==> r == Success(None)
    ensures r.Failure? <==> hasContext && hasUri && content.Unreadable?
    ensures r.Success? ==> (r.value.Some? <==> hasContext && hasUri && content.Readable? && content.decoded.Some?)
    ensures r.Success? && r.value.Some? && (!content.exifStream || content.orientationTag.None?) ==>
      r.value == content.decoded
    ensures hasContext && hasUri && content.Readable? && content.decoded.Some? && content.exifStream ==>
      r == Success(Some(RotateBitmap(content.decoded.value,
        ExifRotationDegrees(content.orientationTag.GetOr(ORIENTATION_NORMAL)))))
  {
    if !hasContext || !hasUri then Success(None)
    else match content
      case Unreadable => Failure(IoError)
      case Readable(decoded, exifStream, tag) =>
        if decoded.Some? && exifStream then
          var orientation := tag.GetOr(ORIENTATION_NORMAL);
          Success(Some(RotateBitmap(decoded.value, ExifRotationDegrees(orientation))))
        else
          Success(decoded)
  }

  // ---------------------------------------------------------------------------------------
  // Cropping and scaling
  // ---------------------------------------------------------------------------------------

  /** A region of a bitmap: top-left corner and extent. */
  datatype Region = Region(x: int, y: int, width: int, height: int)

  /** The region cropBitmap cuts: the corner clamped to 0, the extent cut at the far edge only. */
  function CropRegion(bitmapWidth: int, bitmapHeight: int, rect: Rect): (g: Region)
    ensures g.x >= 0 && g.y >= 0
    ensures rect.left >= 0 ==> g.x == rect.left
    ensures rect.top >= 0 ==> g.y == rect.top
    ensures g.x + g.width <= bitmapWidth && g.y + g.height <= bitmapHeight
    ensures g.width <= rect.Width() && g.height <= rect.Height()
    ensures g.width == rect.Width() || g.x + g.width == bitmapWidth
    ensures g.height == rect.Height() || g.y + g.height == bitmapHeight
  {
    var x := Max(0, rect.left);
    var y := Max(0, rect.top);
    Region(x, y, Min(bitmapWidth - x, rect.Width()), Min(bitmapHeight - y, rect.Height()))
  }

  /** Bitmap.createBitmap(source, x, y, width, height): the pixels of that region. */
  function SubBitmap(b: Bitmap, g: Region): (r: Bitmap)
    requires 0 <= g.x && 0 < g.width && g.x + g.width <= b.width
    requires 0 <= g.y && 0 < g.height && g.y + g.height <= b.height
    ensures r.width == g.width && r.height == g.height
    ensures forall i, j :: 0 <= i < g.height && 0 <= j < g.width ==> r.rows[i][j] == b.rows[g.y + i][g.x + j]
  {
    Raster(g.width, g.height,
      seq(g.height, i requires 0 <= i < g.height =>
        seq(g.width, j requires 0 <= j < g.width => b.rows[g.y + i][g.x + j])))
  }

  /** cropBitmap: null for a null bitmap or an empty region, otherwise the region's pixels. */
  function CropBitmap(bitmap: Option<Bitmap>, rect: Rect): (r: Option<Bitmap>)
    ensures bitmap.None? ==> r.None?
    ensures bitmap.Some? ==>
      var g := CropRegion(bitmap.value.width, bitmap.value.height, rect);
      (r.Some? <==> g.width > 0 && g.height > 0)
  {
    if bitmap.None? then None
    else
      var b := bitmap.value;
      var g := CropRegion(b.width, b.height, rect);
      if g.width > 0 && g.height > 0 then Some(SubBitmap(b, g)) else None
  }

  /** A crop lies inside [0, width) x [0, height) of the bitmap and copies the region's pixels. */
  lemma CropInsideBitmap(b: Bitmap, rect: Rect)
    requires CropBitmap(Some(b), rect).Some?
    ensures var g := CropRegion(b.width, b.height, rect);
      var c := CropBitmap(Some(b), rect).value;
      && 0 <= g.x && g.x + g.width <= b.width
      && 0 <= g.y && g.y + g.height <= b.height
      && c.width == g.width && c.height == g.height
      && forall i, j :: 0 <= i < c.height && 0 <= j < c.width ==> c.rows[i][j] == b.rows[g.y + i][g.x + j]
  {
  }

  /** For a box whose corner is inside the bitmap, the crop is exactly the part of the box inside it. */
  lemma CropOfBoxWithCornerInside(b: Bitmap, rect: Rect)
    requires 0 <= rect.left && 0 <= rect.top
    ensures var g := CropRegion(b.width, b.height, rect);
      && g.x == rect.left && g.x + g.width == Min(b.width, rect.right)
      && g.y == rect.top && g.y + g.height == Min(b.height, rect.bottom)
    ensures CropBitmap(Some(b), rect).Some? <==>
      rect.left < Min(b.width, rect.right) && rect.top < Min(b.height, rect.bottom)
  {
  }

  /**
   * A box sticking out past the left (or top) edge keeps its whole extent: the crop starts at
   * column 0 and is as wide as the box, up to the bitmap's width, not as wide as its visible part.
   */
  lemma CropKeepsWidthLeftOfBitmap(b: Bitmap, rect: Rect)
    requires rect.left < 0
    ensures CropRegion(b.width, b.height, rect).x == 0
    ensures CropRegion(b.width, b.height, rect).width == Min(b.width, rect.Width())
  {
  }

  /** So a box lying entirely left of the bitmap still yields a crop, of the box's own width. */
  lemma CropOfBoxLeftOfBitmap(b: Bitmap)
    requires b.width >= 40 && b.height >= 50
    ensures var c := CropBitmap(Some(b), Rect(-50, 10, -10, 50));
      c.Some? && c.value.width == 40 && c.value.height == 40
  {
  }

  /** Row (or column) i of n, scaled to a grid of m: i * m / n, always a row of that grid. */
  function ScaledIndex(i: int, n: int, m: int): (k: int)
    requires 0 <= i < n && m > 0
    ensures 0 <= k < m
  {
    Grid.ScaledIndexBound(i, n, m);
    i * m / n
  }

  /**
   * Bitmap.createScaledBitmap(b, targetWidth, targetHeight, filter): a targetWidth x targetHeight
   * bitmap; here each pixel is sampled from the nearest source pixel.
   */
  function ScaleBitmap(b: Bitmap, targetWidth: int, targetHeight: int): (r: Bitmap)
    requires targetWidth > 0 && targetHeight > 0
    ensures r.width == targetWidth && r.height == targetHeight
  {
    Raster(targetWidth, targetHeight,
      seq(targetHeight, i requires 0 <= i < targetHeight =>
        seq(targetWidth, j requires 0 <= j < targetWidth =>
          b.rows[ScaledIndex(i, targetHeight, b.height)][ScaledIndex(j, targetWidth, b.width)])))
  }

  /** cropAndScaleBitmap: null exactly when cropBitmap is; otherwise targetWidth x targetHeight. */
  function CropAndScaleBitmap(original: Option<Bitmap>, boundingBox: Rect, targetWidth: int, targetHeight: int)
    : (r: Option<Bitmap>)
    requires targetWidth > 0 && targetHeight > 0
    ensures r.None? <==> CropBitmap(original, boundingBox).None?
    ensures r.Some? ==> r.value.width == targetWidth && r.value.height == targetHeight
  {
    var cropped := CropBitmap(original, boundingBox);
    if cropped.Some? then Some(ScaleBitmap(cropped.value, targetWidth, targetHeight)) else None
  }

  // ---------------------------------------------------------------------------------------
  // The model's input tensor
  // ---------------------------------------------------------------------------------------

  /** preprocessImage's normalisation: (value - mean) / std with mean 0 and std 255. */
  const IMAGE_MEAN: real := 0.0
  const IMAGE_STD: real := 255.0

  /** Bytes per float in the direct ByteBuffer, and channels per pixel. */
  const FLOAT_BYTES: int := 4
  const CHANNELS: int := 3

  /** Channel c of an ARGB pixel: 0 is red (bits 16-23), 1 green (bits 8-15), 2 blue (bits 0-7). */
  function Channel(p: Argb, c: int): (v: int)
    requires 0 <= c < CHANNELS
    ensures 0 <= v <= 255
  {
    if c == 0 then ((p >> 16) & 0xFF) as int
    else if c == 1 then ((p >> 8) & 0xFF) as int
    else (p & 0xFF) as int
  }

  /** The float preprocessImage writes for channel c of pixel p; it lies in [0, 1]. */
  function Normalized(p: Argb, c: int): (f: real)
    requires 0 <= c < CHANNELS
    ensures 0.0 <= f <= 1.0
  {
    (Channel(p, c) as real - IMAGE_MEAN) / IMAGE_STD
  }

  /** Rows laid end to end. */
  function Flatten(rows: seq<seq<Argb>>): seq<Argb>
  {
    if rows == [] then [] else rows[0] + Flatten(rows[1..])
  }

  /** Flattening rows of width w puts cell (i, j) at index i * w + j. */
  lemma {:induction false} FlattenAt(rows: seq<seq<Argb>>, w: int, i: int, j: int)
    requires forall y :: 0 <= y < |rows| ==> |rows[y]| == w
    requires 0 <= i < |rows| && 0 <= j < w
    ensures |Flatten(rows)| == |rows| * w
    ensures i * w + j < |Flatten(rows)| && Flatten(rows)[i * w + j] == rows[i][j]
  {
    FlattenLength(rows, w);
    Grid.RowMajorBound(i, j, w, |rows|);
    var rest := rows[1..];
    assert Flatten(rows) == rows[0] + Flatten(rest);
    assert |rows[0]| == w;
    if i > 0 {
      assert forall y :: 0 <= y < |rest| ==> |rest[y]| == w by {
        forall y | 0 <= y < |rest| ensures |rest[y]| == w {
          assert rest[y] == rows[y + 1];
        }
      }
      FlattenAt(rest, w, i - 1, j);
      Grid.RowStep(i, w);
      assert rest[i - 1] == rows[i];
    }
  }

  lemma {:induction false} FlattenLength(rows: seq<seq<Argb>>, w: int)
    requires forall y :: 0 <= y < |rows| ==> |rows[y]| == w
    ensures |Flatten(rows)| == |rows| * w
  {
    if rows != [] {
      FlattenLength(rows[1..], w);
    }
  }

  /** Bitmap.getPixels over the whole bitmap: the rows, top to bottom. */
  function GetPixels(b: Bitmap): (pixels: seq<Argb>)
    ensures |pixels| == b.width * b.height
  {
    FlattenLength(b.rows, b.width);
    Flatten(b.rows)
  }

  /** The floats preprocessImage writes, in order: for each pixel, its red, green and blue values. */
  function InputTensor(b: Bitmap): (t: seq<real>)
    ensures |t| == CHANNELS * (b.width * b.height)
    ensures forall k :: 0 <= k < |t| ==> 0.0 <= t[k] <= 1.0
  {
    var pixels := GetPixels(b);
    seq(CHANNELS * |pixels|, k requires 0 <= k < CHANNELS * |pixels| => Normalized(pixels[k / CHANNELS], k % CHANNELS))
  }

  /** Float 3 * p + c of the tensor is channel c of the p-th pixel getPixels returns. */
  lemma TensorAt(b: Bitmap, p: int, c: int)
    requires 0 <= p < b.width * b.height && 0 <= c < CHANNELS
    ensures 0 <= CHANNELS * p + c < |InputTensor(b)|
    ensures InputTensor(b)[CHANNELS * p + c] == Normalized(GetPixels(b)[p], c)
  {
    assert (CHANNELS * p + c) / CHANNELS == p && (CHANNELS * p + c) % CHANNELS == c;
  }

  /** The tensor is row-major, channel-last: channel c of pixel (i, j) is float 3 * (i * width + j) + c. */
  lemma TensorLayout(b: Bitmap, i: int, j: int, c: int)
    requires 0 <= i < b.height && 0 <= j < b.width && 0 <= c < CHANNELS
    ensures 0 <= CHANNELS * (i * b.width + j) + c < |InputTensor(b)|
    ensures InputTensor(b)[CHANNELS * (i * b.width + j) + c] == Normalized(b.rows[i][j], c)
  {
    Grid.RowMajorBound(i, j, b.width, b.height);
    FlattenAt(b.rows, b.width, i, j);
    var p := i * b.width + j;
    assert (CHANNELS * p + c) / CHANNELS == p && (CHANNELS * p + c) % CHANNELS == c;
  }

  /** The three putFloat calls for one pixel: red, green and blue at the buffer's position. */
  method PutRgb(imgData: array<real>, position: int, val: Argb)
    requires 0 <= position && position + CHANNELS <= imgData.Length
    modifies imgData
    ensures forall k :: 0 <= k < imgData.Length && !(position <= k < position + CHANNELS) ==>
      imgData[k] == old(imgData[k])
    ensures forall c :: 0 <= c < CHANNELS ==> imgData[position + c] == Normalized(val, c)
  {
    imgData[position] := ((((val >> 16) & 0xFF) as int) as real - IMAGE_MEAN) / IMAGE_STD;
    imgData[position + 1] := ((((val >> 8) & 0xFF) as int) as real - IMAGE_MEAN) / IMAGE_STD;
    imgData[position + 2] := (((val & 0xFF) as int) as real - IMAGE_MEAN) / IMAGE_STD;
  }

  /**
   * The inner loop of preprocessImage for one row: the row's pixels, starting at `pixel` in
   * getPixels order, go out one after another from float 3 * pixel on.
   */
  method PutRow(imgData: array<real>, b: Bitmap, intValues: seq<Argb>, pixel: int, width: int)
    requires intValues == GetPixels(b) && imgData.Length == CHANNELS * |intValues|
    requires 0 <= pixel && 0 <= width && pixel + width <= |intValues|
    requires forall k :: 0 <= k < CHANNELS * pixel ==> imgData[k] == InputTensor(b)[k]
    modifies imgData
    ensures forall k :: 0 <= k < CHANNELS * (pixel + width) ==> imgData[k] == InputTensor(b)[k]
  {
    ghost var tensor := InputTensor(b);
    var position := CHANNELS * pixel;
    for j := 0 to width
      invariant position == CHANNELS * (pixel + j)
      invariant forall k :: 0 <= k < position ==> imgData[k] == tensor[k]
    {
      var val := intValues[pixel + j];
      PutRgb(imgData, position, val);
      forall k | 0 <= k < position + CHANNELS
        ensures imgData[k] == tensor[k]
      {
        if k >= position {
          TensorAt(b, pixel + j, k - position);
        }
      }
      position := position + CHANNELS;
    }
  }

  /**
   * preprocessImage: scales the bitmap to the model's input size, allocates width * height * 3
   * floats of 4 bytes, and writes each pixel's normalised red, green and blue in turn.
   */
  method PreprocessImage(bitmap: Bitmap, inputWidth: int, inputHeight: int) returns (imgData: array<real>)
    requires inputWidth > 0 && inputHeight > 0
    ensures fresh(imgData)
    ensures imgData.Length * FLOAT_BYTES == inputWidth * inputHeight * 3 * 4
    ensures imgData[..] == InputTensor(ScaleBitmap(bitmap, inputWidth, inputHeight))
  {
    var scaledBitmap := ScaleBitmap(bitmap, inputWidth, inputHeight);
    var n := inputWidth * inputHeight;
    imgData := new real[n * CHANNELS];
    var intValues := GetPixels(scaledBitmap);
    ghost var tensor := InputTensor(scaledBitmap);
    assert |intValues| == n && |tensor| == imgData.Length;
    var pixel := 0;
    for i := 0 to inputHeight
      invariant pixel == i * inputWidth && pixel <= n
      invariant forall k :: 0 <= k < CHANNELS * pixel ==> imgData[k] == tensor[k]
    {
      Grid.RowMajorBound(i, inputWidth - 1, inputWidth, inputHeight);
      PutRow(imgData, scaledBitmap, intValues, pixel, inputWidth);
      pixel := pixel + inputWidth;
      Grid.RowStep(i + 1, inputWidth);
    }
    assert imgData[..] == tensor;
  }
}
