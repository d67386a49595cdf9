/**
 * Comparing face embeddings (MainActivity.calculateDistance and the `distance <= 1.0f` test),
 * and the comparison loop over a list of per-face embeddings. What a whole camera frame does,
 * where every face converts the frame again, is FaceRecognition.FrameLoop.
 *
 * Embeddings are sequences of reals: float rounding is not modelled. calculateDistance returns
 * the square root of a sum of squares; the model keeps the sum (the radicand) and compares it
 * with the squared threshold, which RootComparison shows is the same test.
 */
module Matching {
  import opened Wrappers

  /** The output of the embedding model: one float per dimension. */
  type Embedding = seq<real>

  /** The match threshold on the Euclidean distance. */
  const THRESHOLD: real := 1.0

  /** What calculateDistance returns for a null embedding or embeddings of different lengths. */
  const SENTINEL: real := -1.0

  /** calculateDistance's result: the -1 sentinel, or the square root of `radicand`. */
  datatype Distance = Sentinel | Root(radicand: real)

  /** The sum of the squared differences of the first n components. */
  function SquaredDistance(a: Embedding, b: Embedding, n: nat): (s: real)
    requires n <= |a| && n <= |b|
    ensures s >= 0.0
  {
    if n == 0 then 0.0 else SquaredDistance(a, b, n - 1) + (a[n - 1] - b[n - 1]) * (a[n - 1] - b[n - 1])
  }

  /** calculateDistance as a value: the sentinel unless both embeddings exist with equal lengths. */
  function EuclideanDistance(embedding1: Option<Embedding>, embedding2: Option<Embedding>): (d: Distance)
    ensures d.Sentinel? <==>
      embedding1.None? || embedding2.None? || |embedding1.value| != |embedding2.value|
    ensures d.Root? ==> d.radicand >= 0.0
  {
    if embedding1.None? || embedding2.None? || |embedding1.value| != |embedding2.value| then Sentinel
    else Root(SquaredDistance(embedding1.value, embedding2.value, |embedding1.value|))
  }

  /** calculateDistance: accumulates the squared component differences in a loop. */
  method CalculateDistance(embedding1: Option<Embedding>, embedding2: Option<Embedding>) returns (d: Distance)
    ensures d == EuclideanDistance(embedding1, embedding2)
  {
    if embedding1.None? || embedding2.None? || |embedding1.value| != |embedding2.value| {
      return Sentinel;
    }
    var e1, e2 := embedding1.value, embedding2.value;
    var distance := 0.0;
    for i := 0 to |e1|
      invariant distance == SquaredDistance(e1, e2, i)
    {
      distance := distance + (e1[i] - e2[i]) * (e1[i] - e2[i]);
    }
    d := Root(distance);
  }

  /**
   * The test `distance <= 1.0f` on calculateDistance's result, decided on the radicand: the
   * sentinel passes, and a root passes exactly when its radicand is at most 1.
   */
  predicate WithinThreshold(d: Distance): (b: bool)
    ensures d.Sentinel? ==> b
    ensures d.Root? && d.radicand >= 0.0 ==> (b <==> d.radicand <= 1.0)
  {
    match d
    case Sentinel => SENTINEL <= THRESHOLD
    case Root(s) => s <= THRESHOLD * THRESHOLD
  }

  /** The test on the radicand is the source's test on its root t. */
  lemma WithinThresholdOnRoot(t: real, s: real)
    requires t >= 0.0 && t * t == s
    ensures WithinThreshold(Root(s)) <==> t <= THRESHOLD
  {
    RootComparison(t, s);
  }

  /** For the non-negative root t of s, `t <= 1.0` holds exactly when `s <= 1.0`. */
  lemma RootComparison(t: real, s: real)
    requires t >= 0.0 && t * t == s
    ensures t <= THRESHOLD <==> s <= THRESHOLD * THRESHOLD
  {
    if t > THRESHOLD {
      MulPositive(t - 1.0, t + 1.0);
      assert (t - 1.0) * (t + 1.0) == s - 1.0;
    } else {
      MulNonNegative(1.0 - t, t + 1.0);
      assert (1.0 - t) * (t + 1.0) == 1.0 - s;
    }
  }

  /** The product of two positive reals is positive. */
  lemma MulPositive(a: real, b: real)
    requires a > 0.0 && b > 0.0
    ensures a * b > 0.0
  {
  }

  /** The product of two non-negative reals is non-negative. */
  lemma MulNonNegative(a: real, b: real)
    requires a >= 0.0 && b >= 0.0
    ensures a * b >= 0.0
  {
  }

  /** The distance is symmetric in its two embeddings. */
  lemma {:induction false} SquaredDistanceSymmetric(a: Embedding, b: Embedding, n: nat)
    requires n <= |a| && n <= |b|
    ensures SquaredDistance(a, b, n) == SquaredDistance(b, a, n)
  {
    if n > 0 {
      SquaredDistanceSymmetric(a, b, n - 1);
      assert (a[n - 1] - b[n - 1]) * (a[n - 1] - b[n - 1]) == (b[n - 1] - a[n - 1]) * (b[n - 1] - a[n - 1]);
    }
  }

  /** An embedding is at distance zero from itself. */
  lemma {:induction false} SquaredDistanceToSelf(a: Embedding, n: nat)
    requires n <= |a|
    ensures SquaredDistance(a, a, n) == 0.0
  {
    if n > 0 {
      SquaredDistanceToSelf(a, n - 1);
    }
  }

  /** calculateDistance(a, b) == calculateDistance(b, a), and an embedding is at distance 0 from itself. */
  lemma DistanceSymmetricAndReflexive(embedding1: Option<Embedding>, embedding2: Option<Embedding>)
    ensures EuclideanDistance(embedding1, embedding2) == EuclideanDistance(embedding2, embedding1)
    ensures embedding1.Some? ==> EuclideanDistance(embedding1, embedding1) == Root(0.0)
  {
    if embedding1.Some? && embedding2.Some? && |embedding1.value| == |embedding2.value| {
      SquaredDistanceSymmetric(embedding1.value, embedding2.value, |embedding1.value|);
    }
    if embedding1.Some? {
      SquaredDistanceToSelf(embedding1.value, |embedding1.value|);
    }
  }

  /** Identical embeddings always match. */
  lemma IdenticalEmbeddingsMatch(e: Embedding)
    ensures WithinThreshold(EuclideanDistance(Some(e), Some(e)))
  {
    DistanceSymmetricAndReflexive(Some(e), Some(e));
  }

  /** The sentinel -1 passes the `<= 1.0` test: calculateDistance's error value reads as a match. */
  lemma SentinelPassesThreshold(embedding1: Option<Embedding>, embedding2: Option<Embedding>)
    requires embedding1.None? || embedding2.None? || |embedding1.value| != |embedding2.value|
    ensures WithinThreshold(EuclideanDistance(embedding1, embedding2))
  {
  }

  // ---------------------------------------------------------------------------------------
  // The comparison loop over a list of per-face embeddings
  // ---------------------------------------------------------------------------------------

  /** After some faces: the reference as it now stands, and how many faces matched. */
  datatype MatchOutcome = MatchOutcome(reference: Option<Embedding>, matches: nat)

  /**
   * One face of the loop: it is compared only when its embedding exists and a reference is
   * installed; a match clears the reference.
   */
  function CompareFace(reference: Option<Embedding>, current: Option<Embedding>): (o: MatchOutcome)
    ensures o.matches == 1 <==> reference.Some? && FaceMatches(reference.value, current)
    ensures o.matches <= 1
    ensures o.reference == if o.matches == 1 then None else reference
  {
    if current.Some? && reference.Some? && WithinThreshold(EuclideanDistance(current, reference))
    then MatchOutcome(None, 1)
    else MatchOutcome(reference, 0)
  }

  /**
   * The comparison loop over a list of per-face embeddings (null where cropping or inference
   * failed): it keeps or clears the reference and matches at most once.
   */
  function MatchAll(reference: Option<Embedding>, embeddings: seq<Option<Embedding>>): (o: MatchOutcome)
    ensures o.matches <= 1
    ensures o.matches == 0 ==> o.reference == reference
    ensures o.matches == 1 ==> reference.Some? && o.reference.None?
    decreases |embeddings|
  {
    if embeddings == [] then MatchOutcome(reference, 0)
    else
      var first := CompareFace(reference, embeddings[0]);
      var rest := MatchAll(first.reference, embeddings[1..]);
      MatchOutcome(rest.reference, first.matches + rest.matches)
  }

  /** Whether a face's embedding is within the threshold of the reference e. */
  predicate FaceMatches(e: Embedding, current: Option<Embedding>)
  {
    current.Some? && WithinThreshold(EuclideanDistance(current, Some(e)))
  }

  /** Without a reference no face is compared and nothing changes. */
  lemma {:induction false} NoReferenceNoMatch(embeddings: seq<Option<Embedding>>)
    ensures MatchAll(None, embeddings) == MatchOutcome(None, 0)
  {
    if embeddings != [] {
      NoReferenceNoMatch(embeddings[1..]);
    }
  }

  /**
   * Over a list of per-face embeddings at most one face matches; the loop matches exactly when
   * some embedding is within the threshold of the reference; a match clears the reference, and
   * otherwise it stays.
   */
  lemma {:induction false} AtMostOneMatchPerFrame(e: Embedding, embeddings: seq<Option<Embedding>>)
    ensures MatchAll(Some(e), embeddings).matches <= 1
    ensures MatchAll(Some(e), embeddings).matches == 1 <==>
      exists i :: 0 <= i < |embeddings| && FaceMatches(e, embeddings[i])
    ensures MatchAll(Some(e), embeddings).reference ==
      if MatchAll(Some(e), embeddings).matches == 1 then None else Some(e)
  {
    if embeddings != [] {
      var rest := embeddings[1..];
      if FaceMatches(e, embeddings[0]) {
        NoReferenceNoMatch(rest);
      } else {
        AtMostOneMatchPerFrame(e, rest);
        if MatchAll(Some(e), embeddings).matches == 1 {
          var i :| 0 <= i < |rest| && FaceMatches(e, rest[i]);
          assert embeddings[i + 1] == rest[i];
        }
        if i :| 0 <= i < |embeddings| && FaceMatches(e, embeddings[i]) {
          assert i != 0;
          assert rest[i - 1] == embeddings[i];
        }
      }
    }
  }

  /** The loop can only ever clear the reference: it never installs or changes one. */
  lemma MatchNeverInstalls(reference: Option<Embedding>, embeddings: seq<Option<Embedding>>)
    ensures MatchAll(reference, embeddings).reference == reference
         || MatchAll(reference, embeddings).reference.None?
    ensures MatchAll(reference, embeddings).matches <= 1
  {
    if reference.None? {
      NoReferenceNoMatch(embeddings);
    } else {
      AtMostOneMatchPerFrame(reference.value, embeddings);
    }
  }
}
