/**
 * MainActivity: the camera-frame pipeline and the enroll flow around the comparison embedding.
 *
 * Camera frames arrive through ImageAnalysis.Analyzer.analyze; a busy flag admits one frame at a
 * time, ML Kit finds the faces in it, and every face is cut out, embedded by the TFLite model and
 * compared with the reference embedding. A picture picked from the gallery installs that
 * reference (processSelectedImage); a match, a failed enroll or the timeout runnable clears it.
 *
 * The detectors' completion listeners are methods of their own, called with the detector's
 * result. Face detection and inference are inputs: a list of bounding boxes, and the
 * interpreter's `run` function. The model is sequential: listeners run one at a time.
 */
module FaceRecognition {
  import opened Wrappers
  import opened ImageUtils
  import opened Matching
  import opened ReferenceLifecycle

  /** The field initialisers of inputImageWidth, inputImageHeight and embeddingSize. */
  const DEFAULT_INPUT_SIZE: int := 112
  const DEFAULT_EMBEDDING_SIZE: int := 128

  /** The TFLite interpreter, as the activity uses it. */
  datatype Interpreter = Interpreter(
    /** getInputTensor(0).shape(): [batch, height, width, channels] */
    inputShape: seq<int>,
    /** getOutputTensor(0).shape(): [batch, embedding size] */
    outputShape: seq<int>,
    /** runForMultipleInputsOutputs on one input tensor: the output row, None when it throws IllegalArgumentException */
    run: seq<real> -> Option<seq<real>>)
  {
    /** Shapes getInputOutputDetails can read and the pipeline can scale to. */
    predicate ShapesUsable() {
      && |inputShape| >= 3 && inputShape[1] > 0 && inputShape[2] > 0
      && |outputShape| >= 2 && outputShape[1] >= 0
    }
  }

  /** What getFaceEmbedding reads from the activity. */
  datatype EmbeddingSetup = EmbeddingSetup(
    interpreter: Option<Interpreter>,
    inputWidth: int,
    inputHeight: int,
    embeddingSize: int)
  {
    predicate Valid() {
      inputWidth > 0 && inputHeight > 0 && embeddingSize >= 0
    }
  }

  /**
   * getFaceEmbedding as a value: null without an interpreter; otherwise the model's output for
   * the preprocessed face, which TFLite copies into a float[1][embeddingSize] and refuses with
   * an IllegalArgumentException when its length differs.
   */
  function FaceEmbedding(setup: EmbeddingSetup, faceBitmap: Bitmap): (r: Option<Embedding>)
    requires setup.Valid()
    ensures setup.interpreter.None? ==> r.None?
    ensures r.Some? ==> |r.value| == setup.embeddingSize
    ensures setup.interpreter.Some? ==>
      var output :=
        setup.interpreter.value.run(InputTensor(ScaleBitmap(faceBitmap, setup.inputWidth, setup.inputHeight)));
      (r.Some? <==> output.Some? && |output.value| == setup.embeddingSize)
      && (r.Some? ==> r == output)
  {
    if setup.interpreter.None? then None
    else
      var output :=
        setup.interpreter.value.run(InputTensor(ScaleBitmap(faceBitmap, setup.inputWidth, setup.inputHeight)));
      if output.Some? && |output.value| == setup.embeddingSize then output else None
  }

  /** One detected face of a frame or of a picked image: crop and scale it, then embed it. */
  function FaceEmbeddingOf(setup: EmbeddingSetup, bitmap: Bitmap, boundingBox: Rect): (r: Option<Embedding>)
    requires setup.Valid()
    ensures CropBitmap(Some(bitmap), boundingBox).None? ==> r.None?
    ensures r.Some? ==> |r.value| == setup.embeddingSize
    ensures var c := CropAndScaleBitmap(Some(bitmap), boundingBox, setup.inputWidth, setup.inputHeight);
      c.Some? ==> r == FaceEmbedding(setup, c.value)
  {
    match CropAndScaleBitmap(Some(bitmap), boundingBox, setup.inputWidth, setup.inputHeight)
    case None => None
    case Some(faceBitmap) => FaceEmbedding(setup, faceBitmap)
  }

  /** The embedding of every face of a frame, in the detector's order. */
  function FaceEmbeddings(setup: EmbeddingSetup, bitmap: Bitmap, faces: seq<Rect>): (r: seq<Option<Embedding>>)
    requires setup.Valid()
    ensures |r| == |faces|
    ensures forall i :: 0 <= i < |faces| ==> r[i] == FaceEmbeddingOf(setup, bitmap, faces[i])
  {
    seq(|faces|, i requires 0 <= i < |faces| => FaceEmbeddingOf(setup, bitmap, faces[i]))
  }

  /**
   * The -1 sentinel of calculateDistance never reaches the threshold test in the pipeline: a
   * face's embedding and the reference both have the model's output length.
   */
  lemma PipelineNeverSeesSentinel(setup: EmbeddingSetup, bitmap: Bitmap, faces: seq<Rect>, reference: Embedding)
    requires setup.Valid() && |reference| == setup.embeddingSize
    ensures forall i :: 0 <= i < |faces| && FaceEmbeddings(setup, bitmap, faces)[i].Some? ==>
      EuclideanDistance(FaceEmbeddings(setup, bitmap, faces)[i], Some(reference)).Root?
  {
    var embeddings := FaceEmbeddings(setup, bitmap, faces);
    forall i | 0 <= i < |faces| && embeddings[i].Some?
      ensures EuclideanDistance(embeddings[i], Some(reference)).Root?
    {
      assert |embeddings[i].value| == setup.embeddingSize;
    }
  }

  // ---------------------------------------------------------------------------------------
  // One camera frame
  // ---------------------------------------------------------------------------------------

  /** How the success listener of the frame's face detection ends. */
  datatype FrameExit =
    | Finished     // the loop ran over every face (or there was none)
    | NullBitmap   // imageProxyToBitmap returned null: close, reset, return
    | Threw        // an exception, caught and logged (imageProxyToBitmap's unsupported format)

  /** The reference after the frame, how many faces matched, and how the listener ended. */
  datatype FrameOutcome = FrameOutcome(reference: Option<Embedding>, matches: nat, exit: FrameExit)

  /** What one imageProxyToBitmap call yields: an exception, null, or a bitmap. */
  type Conversion = Result<Option<Bitmap>, ImageError>

  /** Whether a conversion of the frame, as its plane buffers stand, yields a bitmap. */
  predicate Converts(frame: FrameData, codec: Codec)
  {
    DecodedFrame(frame, codec).Success? && DecodedFrame(frame, codec).value.Some?
  }

  /** The bitmap such a conversion yields. */
  function Converted(frame: FrameData, codec: Codec): Bitmap
    requires Converts(frame, codec)
  {
    DecodedFrame(frame, codec).value.value
  }

  /**
   * One face's turn: convert the frame; an exception or a null bitmap ends the listener and
   * leaves the reference alone, and otherwise the face cut from the bitmap is compared.
   */
  function FaceTurn(reference: Option<Embedding>, setup: EmbeddingSetup, conversion: Conversion,
                    boundingBox: Rect): (o: FrameOutcome)
    requires setup.Valid()
    ensures o.exit == Threw <==> conversion.Failure?
    ensures o.exit == NullBitmap <==> conversion == Success(None)
    ensures o.exit != Finished ==> o.reference == reference && o.matches == 0
    ensures o.matches <= 1 && (o.matches == 1 ==> reference.Some? && o.reference.None?)
    ensures o.matches == 0 ==> o.reference == reference
  {
    match conversion
    case Failure(_) => FrameOutcome(reference, 0, Threw)
    case Success(None) => FrameOutcome(reference, 0, NullBitmap)
    case Success(Some(b)) =>
      var c := CompareFace(reference, FaceEmbeddingOf(setup, b, boundingBox));
      FrameOutcome(c.reference, c.matches, Finished)
  }

  /**
   * The success listener's loop over the faces, given what the conversion for the first face
   * yields and what every later conversion yields. An exception or a null bitmap ends the loop;
   * what the faces before it did to the reference stays.
   */
  function FrameLoop(reference: Option<Embedding>, setup: EmbeddingSetup, conversion: Conversion,
                     later: Conversion, faces: seq<Rect>): (o: FrameOutcome)
    requires setup.Valid()
    ensures faces == [] ==> o == FrameOutcome(reference, 0, Finished)
    ensures faces != [] && conversion.Failure? ==> o == FrameOutcome(reference, 0, Threw)
    ensures faces != [] && conversion == Success(None) ==> o == FrameOutcome(reference, 0, NullBitmap)
    ensures o.matches <= 1
    ensures o.matches == 0 ==> o.reference == reference
    ensures o.matches == 1 ==> reference.Some? && o.reference.None?
    decreases |faces|
  {
    if faces == [] then FrameOutcome(reference, 0, Finished)
    else
      var one := FaceTurn(reference, setup, conversion, faces[0]);
      if one.exit != Finished then one
      else
        var rest := FrameLoop(one.reference, setup, later, later, faces[1..]);
        FrameOutcome(rest.reference, one.matches + rest.matches, rest.exit)
  }

  /**
   * The success listener of a frame's face detection, from the frame's plane buffers as they
   * stand: each face converts the frame again, so the first face is cut from the frame and every
   * later face from what the consumed buffers convert to.
   */
  function FrameSpec(reference: Option<Embedding>, setup: EmbeddingSetup, frame: FrameData, codec: Codec,
                     faces: seq<Rect>): (o: FrameOutcome)
    requires setup.Valid()
    ensures faces == [] ==> o == FrameOutcome(reference, 0, Finished)
    ensures faces != [] && DecodedFrame(frame, codec).Failure? ==> o == FrameOutcome(reference, 0, Threw)
    ensures faces != [] && DecodedFrame(frame, codec) == Success(None) ==> o == FrameOutcome(reference, 0, NullBitmap)
    ensures o.matches <= 1
    ensures o.matches == 0 ==> o.reference == reference
    ensures o.matches == 1 ==> reference.Some? && o.reference.None?
  {
    FrameLoop(reference, setup, DecodedFrame(frame, codec), DecodedFrame(Consumed(frame), codec), faces)
  }

  /** When every conversion yields the same bitmap b, the loop is MatchAll over the faces cut from b. */
  lemma {:induction false} SameBitmapLoopIsMatchAll(reference: Option<Embedding>, setup: EmbeddingSetup, b: Bitmap,
                                                    faces: seq<Rect>)
    requires setup.Valid()
    ensures var m := MatchAll(reference, FaceEmbeddings(setup, b, faces));
      FrameLoop(reference, setup, Success(Some(b)), Success(Some(b)), faces) ==
        FrameOutcome(m.reference, m.matches, Finished)
    decreases |faces|
  {
    if faces != [] {
      var embeddings := FaceEmbeddings(setup, b, faces);
      var first := CompareFace(reference, FaceEmbeddingOf(setup, b, faces[0]));
      SameBitmapLoopIsMatchAll(first.reference, setup, b, faces[1..]);
      assert embeddings[1..] == FaceEmbeddings(setup, b, faces[1..]);
    }
  }

  /**
   * A frame with a reference matches exactly when its first conversion succeeds and either the
   * first face is within the threshold, or the consumed buffers still convert and a later face
   * cut from that second bitmap is.
   */
  lemma FrameMatchesIffSomeFaceMatches(e: Embedding, setup: EmbeddingSetup, frame: FrameData, codec: Codec,
                                       faces: seq<Rect>)
    requires setup.Valid()
    ensures FrameSpec(Some(e), setup, frame, codec, faces).matches == 1 <==>
      && faces != [] && Converts(frame, codec)
      && (|| FaceMatches(e, FaceEmbeddingOf(setup, Converted(frame, codec), faces[0]))
          || (&& Converts(Consumed(frame), codec)
              && exists i :: 1 <= i < |faces| &&
                   FaceMatches(e, FaceEmbeddingOf(setup, Converted(Consumed(frame), codec), faces[i]))))
  {
    if faces != [] && Converts(frame, codec) {
      var rest := faces[1..];
      if !FaceMatches(e, FaceEmbeddingOf(setup, Converted(frame, codec), faces[0]))
         && Converts(Consumed(frame), codec)
      {
        var b := Converted(Consumed(frame), codec);
        var embeddings := FaceEmbeddings(setup, b, rest);
        SameBitmapLoopIsMatchAll(Some(e), setup, b, rest);
        AtMostOneMatchPerFrame(e, embeddings);
        if exists j :: 0 <= j < |rest| && FaceMatches(e, embeddings[j]) {
          var j :| 0 <= j < |rest| && FaceMatches(e, embeddings[j]);
          assert faces[j + 1] == rest[j];
        }
        if exists i :: 1 <= i < |faces| && FaceMatches(e, FaceEmbeddingOf(setup, b, faces[i])) {
          var i :| 1 <= i < |faces| && FaceMatches(e, FaceEmbeddingOf(setup, b, faces[i]));
          assert rest[i - 1] == faces[i];
          assert FaceMatches(e, embeddings[i - 1]);
        }
      }
    }
  }

  /**
   * A JPEG frame with two or more faces: the second conversion reads an empty first plane and
   * decodes to null, so only the first face is ever compared and the listener takes the
   * null-bitmap exit.
   */
  lemma JpegFrameComparesOnlyFirstFace(reference: Option<Embedding>, setup: EmbeddingSetup, frame: FrameData,
                                       codec: Codec, faces: seq<Rect>)
    requires setup.Valid() && frame.format == JPEG && |frame.planes| >= 1
    requires codec.decodeByteArray([]) == None
    requires |faces| >= 2 && Converts(frame, codec)
    ensures var first := CompareFace(reference, FaceEmbeddingOf(setup, Converted(frame, codec), faces[0]));
      FrameSpec(reference, setup, frame, codec, faces) == FrameOutcome(first.reference, first.matches, NullBitmap)
  {
    ConsumedJpegDecodesNothing(frame, codec);
  }

  /** How many times the success listener closes the frame: twice on the null-bitmap path, else once. */
  function Closes(exit: FrameExit): (n: nat)
    ensures n >= 1
    ensures n == 2 <==> exit == NullBitmap
  {
    if exit == NullBitmap then 2 else 1
  }

  // ---------------------------------------------------------------------------------------
  // Enrolling a reference from a picked picture
  // ---------------------------------------------------------------------------------------

  /** What the success listener of the picked picture's face detection does to the reference. */
  function EnrollEvent(setup: EmbeddingSetup, bitmap: Bitmap, faces: seq<Rect>): (ev: RefEvent)
    requires setup.Valid()
    ensures ev.EnrollRejected? <==> |faces| > 1
    ensures ev.EnrollCleared? <==> faces == [] || (|faces| == 1 && FaceEmbeddingOf(setup, bitmap, faces[0]).None?)
    ensures ev.Installed? <==> |faces| == 1 && FaceEmbeddingOf(setup, bitmap, faces[0]).Some?
    ensures ev.Installed? ==>
      Some(ev.embedding) == FaceEmbeddingOf(setup, bitmap, faces[0]) && |ev.embedding| == setup.embeddingSize
    ensures setup.interpreter.None? ==> !ev.Installed?
  {
    if faces == [] then EnrollCleared
    else if |faces| > 1 then EnrollRejected
    else match FaceEmbeddingOf(setup, bitmap, faces[0])
      case None => EnrollCleared
      case Some(embedding) => Installed(embedding)
  }

  // ---------------------------------------------------------------------------------------
  // The objects
  // ---------------------------------------------------------------------------------------

  class MainActivity {
    /** The graphics library the image utilities call. */
    const codec: Codec
    /** tfliteInterpreter: None when the model file did not load. */
    const interpreter: Option<Interpreter>
    var inputImageWidth: int
    var inputImageHeight: int
    var embeddingSize: int
    var comparedFaceEmbedding: Option<Embedding>
    /** The runs of timeoutRunnable queued on timeoutHandler. */
    var pendingTimeouts: nat
    /** The AtomicBoolean isProcessing. */
    var isProcessing: bool
    /** The frame whose face detection is running, while isProcessing is set. */
    var inFlight: ImageProxy?
    /** How many "Face Matched!" messages have been posted. */
    var matchSignals: nat

    function Setup(): EmbeddingSetup
      reads this
    {
      EmbeddingSetup(interpreter, inputImageWidth, inputImageHeight, embeddingSize)
    }

    function RefStateOf(): RefState
      reads this
    {
      RefState(comparedFaceEmbedding, pendingTimeouts)
    }

    /** The sizes are usable, and a reference has the model's output length. */
    predicate Core()
      reads this
    {
      && Setup().Valid()
      && (comparedFaceEmbedding.Some? ==> |comparedFaceEmbedding.value| == embeddingSize)
    }

    /** Core, and the busy flag is set exactly while a frame is being analysed. */
    predicate Valid()
      reads this
    {
      Core() && (isProcessing <==> inFlight != null)
    }

    /** onCreate: the field initialisers, then the shapes of a loaded model. */
    constructor (codec: Codec, interpreter: Option<Interpreter>)
      requires interpreter.Some? ==> interpreter.value.ShapesUsable()
      ensures Valid()
      ensures this.codec == codec && this.interpreter == interpreter
      ensures RefStateOf() == INITIAL && !isProcessing && matchSignals == 0
      ensures interpreter.None? ==>
        inputImageWidth == DEFAULT_INPUT_SIZE && inputImageHeight == DEFAULT_INPUT_SIZE
        && embeddingSize == DEFAULT_EMBEDDING_SIZE
      ensures interpreter.Some? ==>
        inputImageHeight == interpreter.value.inputShape[1] && inputImageWidth == interpreter.value.inputShape[2]
        && embeddingSize == interpreter.value.outputShape[1]
    {
      this.codec := codec;
      this.interpreter := interpreter;
      inputImageWidth := DEFAULT_INPUT_SIZE;
      inputImageHeight := DEFAULT_INPUT_SIZE;
      embeddingSize := DEFAULT_EMBEDDING_SIZE;
      comparedFaceEmbedding := None;
      pendingTimeouts := 0;
      isProcessing := false;
      inFlight := null;
      matchSignals := 0;
      new;
      if interpreter.Some? {
        GetInputOutputDetails();
      }
    }

    /** getInputOutputDetails: height and width from input dimensions 1 and 2, the size from output dimension 1. */
    method GetInputOutputDetails()
      requires interpreter.Some? && interpreter.value.ShapesUsable()
      modifies this
      ensures inputImageHeight == interpreter.value.inputShape[1]
      ensures inputImageWidth == interpreter.value.inputShape[2]
      ensures embeddingSize == interpreter.value.outputShape[1]
      ensures Setup().Valid()
      ensures RefStateOf() == old(RefStateOf()) && isProcessing == old(isProcessing)
      ensures inFlight == old(inFlight) && matchSignals == old(matchSignals)
    {
      var inputShape := interpreter.value.inputShape;
      inputImageHeight := inputShape[1];
      inputImageWidth := inputShape[2];
      var outputShape := interpreter.value.outputShape;
      embeddingSize := outputShape[1];
    }

    /**
     * analyze: compareAndSet(false, true) admits the frame; a frame that arrives while another
     * is being analysed is closed at once and the flag stays set.
     */
    method Analyze(proxy: ImageProxy, inputImageThrows: bool)
      requires Valid()
      modifies this, proxy
      ensures Valid()
      ensures proxy.frame == old(proxy.frame)
      ensures old(isProcessing) ==>
        isProcessing && inFlight == old(inFlight) && proxy.closeCount == old(proxy.closeCount) + 1
      ensures !old(isProcessing) && proxy.frame.hasMediaImage && !inputImageThrows ==>
        isProcessing && inFlight == proxy && proxy.closeCount == old(proxy.closeCount)
      ensures !old(isProcessing) && (!proxy.frame.hasMediaImage || inputImageThrows) ==>
        !isProcessing && inFlight == null && proxy.closeCount == old(proxy.closeCount) + 1
      ensures RefStateOf() == old(RefStateOf()) && Setup() == old(Setup()) && matchSignals == old(matchSignals)
    {
      if !isProcessing {
        isProcessing := true;
        DetectFacesAndRecognize(proxy, inputImageThrows);
      } else {
        proxy.Close();
      }
    }

    /**
     * detectFacesAndRecognize up to handing the frame to the detector: a frame without a media
     * image, or whose InputImage cannot be built, is closed and the flag reset.
     */
    method DetectFacesAndRecognize(proxy: ImageProxy, inputImageThrows: bool)
      requires Core() && isProcessing && inFlight == null
      modifies this, proxy
      ensures Valid() && proxy.frame == old(proxy.frame)
      ensures proxy.frame.hasMediaImage && !inputImageThrows ==>
        isProcessing && inFlight == proxy && proxy.closeCount == old(proxy.closeCount)
      ensures !proxy.frame.hasMediaImage || inputImageThrows ==>
        !isProcessing && inFlight == null && proxy.closeCount == old(proxy.closeCount) + 1
      ensures RefStateOf() == old(RefStateOf()) && Setup() == old(Setup()) && matchSignals == old(matchSignals)
    {
      if !proxy.frame.hasMediaImage {
        proxy.Close();
        isProcessing := false;
        return;
      }
      if inputImageThrows {
        proxy.Close();
        isProcessing := false;
        return;
      }
      inFlight := proxy;
    }

    /** The failure listener of the frame's face detection: close the frame, reset the flag. */
    method OnFrameDetectionFailed()
      requires Valid() && isProcessing
      modifies this, inFlight
      ensures Valid() && !isProcessing && inFlight == null
      ensures old(inFlight).closeCount == old(inFlight.closeCount) + 1
      ensures RefStateOf() == old(RefStateOf()) && Setup() == old(Setup()) && matchSignals == old(matchSignals)
    {
      inFlight.Close();
      isProcessing := false;
      inFlight := null;
    }

    /**
     * The success listener of the frame's face detection: for each face, convert the frame,
     * crop and embed the face, and compare it with the reference; a match clears the reference
     * and removes the queued timeouts. The finally block closes the frame and resets the flag.
     */
    method OnFrameFacesDetected(faces: seq<Rect>)
      requires Valid() && isProcessing
      modifies this, inFlight
      ensures Valid() && !isProcessing && inFlight == null
      ensures var o := FrameSpec(old(comparedFaceEmbedding), old(Setup()), old(inFlight.frame), codec, faces);
        && comparedFaceEmbedding == o.reference
        && matchSignals == old(matchSignals) + o.matches
        && RefStateOf() == (if o.matches == 1 then Step(old(RefStateOf()), Matched) else old(RefStateOf()))
        && old(inFlight).closeCount == old(inFlight.closeCount) + Closes(o.exit)
      ensures old(inFlight).frame == if faces == [] then old(inFlight.frame) else Consumed(old(inFlight.frame))
      ensures Setup() == old(Setup())
    {
      var proxy := inFlight;
      var exit := CompareFaces(proxy, faces);
      proxy.Close();
      isProcessing := false;
      inFlight := null;
    }

    /**
     * The try block of that listener: the per-face loop. It returns how the block ended; on the
     * null-bitmap path it has closed the frame once already.
     */
    method CompareFaces(proxy: ImageProxy, faces: seq<Rect>) returns (exit: FrameExit)
      requires Valid() && isProcessing && inFlight == proxy
      modifies this, proxy
      ensures Valid() && isProcessing && inFlight == proxy && Setup() == old(Setup())
      ensures var o := FrameSpec(old(comparedFaceEmbedding), old(Setup()), old(proxy.frame), codec, faces);
        && exit == o.exit
        && comparedFaceEmbedding == o.reference
        && matchSignals == old(matchSignals) + o.matches
        && pendingTimeouts == (if o.matches == 1 then 0 else old(pendingTimeouts))
        && proxy.closeCount == old(proxy.closeCount) + (if o.exit == NullBitmap then 1 else 0)
      ensures proxy.frame == if faces == [] then old(proxy.frame) else Consumed(old(proxy.frame))
    {
      ghost var setup := Setup();
      ghost var frame0 := proxy.frame;
      ghost var first, later := DecodedFrame(frame0, codec), DecodedFrame(Consumed(frame0), codec);
      ghost var signals0, pending0, closes0 := matchSignals, pendingTimeouts, proxy.closeCount;
      ghost var spec := FrameSpec(comparedFaceEmbedding, setup, frame0, codec, faces);
      assert faces[0..] == faces;
      ConsumedTwice(frame0);
      exit := Finished;
      var i := 0;
      while i < |faces|
        invariant 0 <= i <= |faces|
        invariant Valid() && Setup() == setup && isProcessing && inFlight == proxy
        invariant proxy.closeCount == closes0 && exit == Finished
        invariant proxy.frame == if i == 0 then frame0 else Consumed(frame0)
        invariant matchSignals >= signals0
        invariant pendingTimeouts == (if matchSignals == signals0 then pending0 else 0)
        invariant var rest :=
            FrameLoop(comparedFaceEmbedding, setup, if i == 0 then first else later, later, faces[i..]);
          && rest.reference == spec.reference
          && matchSignals - signals0 + rest.matches == spec.matches
          && rest.exit == spec.exit
      {
        assert faces[i..][0] == faces[i] && faces[i..][1..] == faces[i + 1..];
        assert DecodedFrame(proxy.frame, codec) == if i == 0 then first else later;
        exit := CompareFrameFace(proxy, faces[i]);
        if exit != Finished {
          break;
        }
        i := i + 1;
      }
    }

    /**
     * One turn of the per-face loop: convert the frame (which consumes its plane buffers); a
     * conversion that throws ends the block, a null bitmap closes the frame and returns; otherwise
     * the face is compared.
     */
    method CompareFrameFace(proxy: ImageProxy, boundingBox: Rect) returns (exit: FrameExit)
      requires Valid() && isProcessing && inFlight == proxy
      modifies this, proxy
      ensures Valid() && isProcessing && inFlight == proxy && Setup() == old(Setup())
      ensures var d := DecodedFrame(old(proxy.frame), codec);
        var o := FaceTurn(old(comparedFaceEmbedding), old(Setup()), d, boundingBox);
        && exit == o.exit
        && comparedFaceEmbedding == o.reference
        && matchSignals == old(matchSignals) + o.matches
        && pendingTimeouts == (if o.matches == 1 then 0 else old(pendingTimeouts))
        && proxy.closeCount == old(proxy.closeCount) + (if o.exit == NullBitmap then 1 else 0)
      ensures proxy.frame == Consumed(old(proxy.frame))
    {
      var decoded := ImageProxyToBitmap(proxy, codec);
      if decoded.Failure? {
        return Threw;
      }
      if decoded.value.None? {
        proxy.Close();
        return NullBitmap;
      }
      var imageBitmap := decoded.value.value;
      CompareOneFace(imageBitmap, boundingBox);
      exit := Finished;
    }

    /**
     * One iteration of the per-face loop, once the frame has converted: crop and embed the face;
     * with an embedding and a reference, a distance within the threshold posts the match message,
     * clears the reference and removes the queued timeouts.
     */
    method CompareOneFace(imageBitmap: Bitmap, boundingBox: Rect)
      requires Valid()
      modifies this
      ensures Valid()
      ensures var c := CompareFace(old(comparedFaceEmbedding), FaceEmbeddingOf(old(Setup()), imageBitmap, boundingBox));
        && comparedFaceEmbedding == c.reference
        && matchSignals == old(matchSignals) + c.matches
        && pendingTimeouts == (if c.matches == 1 then 0 else old(pendingTimeouts))
      ensures Setup() == old(Setup()) && isProcessing == old(isProcessing) && inFlight == old(inFlight)
    {
      var faceBitmap := CropAndScaleBitmap(Some(imageBitmap), boundingBox, inputImageWidth, inputImageHeight);
      if faceBitmap.Some? {
        var currentEmbedding := GetFaceEmbedding(faceBitmap.value);
        if currentEmbedding.Some? && comparedFaceEmbedding.Some? {
          var distance := CalculateDistance(currentEmbedding, comparedFaceEmbedding);
          if WithinThreshold(distance) {
            matchSignals := matchSignals + 1;
            comparedFaceEmbedding := None;
            pendingTimeouts := 0;
          }
        }
      }
    }

    /** getFaceEmbedding: preprocess the face into the input tensor and run the model on it. */
    method GetFaceEmbedding(faceBitmap: Bitmap) returns (r: Option<Embedding>)
      requires Setup().Valid()
      ensures r == FaceEmbedding(Setup(), faceBitmap)
    {
      if interpreter.None? {
        return None;
      }
      var inputBuffer := PreprocessImage(faceBitmap, inputImageWidth, inputImageHeight);
      var output := interpreter.value.run(inputBuffer[..]);
      if output.Some? && |output.value| == embeddingSize {
        r := output;
      } else {
        r := None;
      }
    }

    /**
     * processSelectedImage up to handing the picture to the detector: it returns the bitmap
     * submitted for detection; when none is (no bitmap, or an IOException), the reference is cleared.
     */
    method ProcessSelectedImage(content: UriContent) returns (submitted: Option<Bitmap>)
      requires Valid()
      modifies this
      ensures Valid()
      ensures var decoded := UriToBitmap(true, true, content);
        submitted == (if decoded.Success? then decoded.value else None)
      ensures RefStateOf() == if submitted.Some? then old(RefStateOf()) else Step(old(RefStateOf()), EnrollCleared)
      ensures Setup() == old(Setup()) && isProcessing == old(isProcessing) && inFlight == old(inFlight)
      ensures matchSignals == old(matchSignals)
    {
      var bitmap := UriToBitmap(true, true, content);
      if bitmap.Failure? {
        comparedFaceEmbedding := None;
        return None;
      }
      if bitmap.value.None? {
        comparedFaceEmbedding := None;
        return None;
      }
      submitted := bitmap.value;
    }

    /** The failure listener of the picked picture's face detection: clear the reference. */
    method OnEnrollDetectionFailed()
      requires Valid()
      modifies this
      ensures Valid()
      ensures RefStateOf() == Step(old(RefStateOf()), EnrollCleared)
      ensures Setup() == old(Setup()) && isProcessing == old(isProcessing) && inFlight == old(inFlight)
      ensures matchSignals == old(matchSignals)
    {
      comparedFaceEmbedding := None;
    }

    /**
     * The success listener of the picked picture's face detection, with the picture it was
     * given: one face installs its embedding and posts one more timeout; several faces change
     * nothing; no face, a failed crop or a failed embedding clears the reference.
     */
    method OnEnrollFacesDetected(bitmap: Bitmap, faces: seq<Rect>)
      requires Valid()
      modifies this
      ensures Valid()
      ensures RefStateOf() == Step(old(RefStateOf()), EnrollEvent(old(Setup()), bitmap, faces))
      ensures Setup() == old(Setup()) && isProcessing == old(isProcessing) && inFlight == old(inFlight)
      ensures matchSignals == old(matchSignals)
    {
      if faces != [] {
        if |faces| > 1 {
          return;
        }
        var croppedFace := CropAndScaleBitmap(Some(bitmap), faces[0], inputImageWidth, inputImageHeight);
        if croppedFace.Some? {
          comparedFaceEmbedding := GetFaceEmbedding(croppedFace.value);
          if comparedFaceEmbedding.Some? {
            pendingTimeouts := pendingTimeouts + 1;
          } else {
            comparedFaceEmbedding := None;
          }
        } else {
          comparedFaceEmbedding := None;
        }
      } else {
        comparedFaceEmbedding := None;
      }
    }

    /** One queued run of timeoutRunnable: the reference is cleared, whichever it is. */
    method OnTimeout()
      requires Valid() && pendingTimeouts > 0
      modifies this
      ensures Valid()
      ensures RefStateOf() == Step(old(RefStateOf()), TimedOut)
      ensures Setup() == old(Setup()) && isProcessing == old(isProcessing) && inFlight == old(inFlight)
      ensures matchSignals == old(matchSignals)
    {
      pendingTimeouts := pendingTimeouts - 1;
      comparedFaceEmbedding := None;
    }

    /** onDestroy: removeCallbacks drops every queued run of the timeout. */
    method OnDestroy()
      requires Valid()
      modifies this
      ensures Valid()
      ensures RefStateOf() == Step(old(RefStateOf()), Destroyed)
      ensures Setup() == old(Setup()) && isProcessing == old(isProcessing) && inFlight == old(inFlight)
      ensures matchSignals == old(matchSignals)
    {
      pendingTimeouts := 0;
    }
  }
}
