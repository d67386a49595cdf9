/**
 * The life of the comparison embedding (MainActivity.comparedFaceEmbedding) and of the timeout
 * runnable posted for it, as a sequential state machine.
 *
 * The activity keeps one reference embedding, installed by the enroll flow
 * (processSelectedImage) and cleared by a match, by a failed enroll or by the timeout runnable.
 * Handler.postDelayed(timeoutRunnable, 10000) queues one more run of the same runnable on every
 * successful enroll, and removeCallbacks(timeoutRunnable) drops every queued run at once; the
 * state therefore counts the queued runs. Wall-clock time is not modelled: a timer firing is an
 * event of its own.
 */
module ReferenceLifecycle {
  import opened Wrappers
  import opened Matching

  /** The reference embedding and the number of timeout runs queued on the main looper. */
  datatype RefState = RefState(reference: Option<Embedding>, pendingTimeouts: nat)

  /** The state when the activity is created: no reference, nothing posted. */
  const INITIAL: RefState := RefState(None, 0)

  /** What happens to the reference. */
  datatype RefEvent =
    | Installed(embedding: Embedding)  // enroll: one face, cropped and embedded; one more timeout posted
    | EnrollCleared                    // enroll: no bitmap, no face, crop or embedding failed, or an error
    | EnrollRejected                   // enroll: more than one face in the picked image
    | Matched                          // a camera face within the threshold: clear and remove the callbacks
    | TimedOut                         // one queued run of the timeout runnable fires
    | Destroyed                        // onDestroy removes the callbacks

  /** One event. A timeout fires only while a run is queued; without one it changes nothing. */
  function Step(s: RefState, e: RefEvent): (t: RefState)
    ensures e.Installed? ==> t.reference == Some(e.embedding) && t.pendingTimeouts == s.pendingTimeouts + 1
    ensures e.EnrollCleared? ==> t == RefState(None, s.pendingTimeouts)
    ensures e.EnrollRejected? ==> t == s
    ensures e.Matched? ==> t == INITIAL
    ensures e.TimedOut? && s.pendingTimeouts > 0 ==> t == RefState(None, s.pendingTimeouts - 1)
    ensures e.TimedOut? && s.pendingTimeouts == 0 ==> t == s
    ensures e.Destroyed? ==> t == RefState(s.reference, 0)
  {
    match e
    case Installed(embedding) => RefState(Some(embedding), s.pendingTimeouts + 1)
    case EnrollCleared => RefState(None, s.pendingTimeouts)
    case EnrollRejected => s
    case Matched => RefState(None, 0)
    case TimedOut => if s.pendingTimeouts == 0 then s else RefState(None, s.pendingTimeouts - 1)
    case Destroyed => RefState(s.reference, 0)
  }

  /** A sequence of events, applied in order. */
  function Run(s: RefState, trace: seq<RefEvent>): RefState
    decreases |trace|
  {
    if trace == [] then s else Run(Step(s, trace[0]), trace[1..])
  }

  /** Whether no event of the trace installs a reference. */
  predicate NoInstalls(trace: seq<RefEvent>)
  {
    forall k :: 0 <= k < |trace| ==> !trace[k].Installed?
  }

  /** How many events of the trace install a reference (and post a timeout). */
  function Installs(trace: seq<RefEvent>): (n: nat)
    ensures n <= |trace|
    ensures n == 0 <==> NoInstalls(trace)
    decreases |trace|
  {
    if trace == [] then 0
    else
      var rest := Installs(trace[1..]);
      assert NoInstalls(trace) <==> !trace[0].Installed? && NoInstalls(trace[1..]) by {
        if !trace[0].Installed? && NoInstalls(trace[1..]) {
          forall k | 0 <= k < |trace| ensures !trace[k].Installed? {
            if k > 0 { assert trace[k] == trace[1..][k - 1]; }
          }
        }
      }
      (if trace[0].Installed? then 1 else 0) + rest
  }

  /**
   * A reference held after a trace was either held before it or installed by one of its
   * events: matches, timeouts and failed enrolls only ever take the reference away.
   */
  lemma {:induction false} ReferenceComesFromInstall(s: RefState, trace: seq<RefEvent>, e: Embedding)
    requires Run(s, trace).reference == Some(e)
    ensures s.reference == Some(e) || Installed(e) in trace
    decreases |trace|
  {
    if trace != [] {
      ReferenceComesFromInstall(Step(s, trace[0]), trace[1..], e);
      if Installed(e) in trace[1..] {
        var k :| 0 <= k < |trace[1..]| && trace[1..][k] == Installed(e);
        assert trace[k + 1] == Installed(e);
      }
    }
  }

  /** Without a new install, a cleared reference stays cleared whatever else happens. */
  lemma {:induction false} ClearedStaysClearedWithoutInstall(s: RefState, trace: seq<RefEvent>)
    requires s.reference.None? && NoInstalls(trace)
    ensures Run(s, trace).reference.None?
    decreases |trace|
  {
    if trace != [] {
      ClearedStaysClearedWithoutInstall(Step(s, trace[0]), trace[1..]);
    }
  }

  /** Queued timeout runs never outnumber the enrolls that posted them. */
  lemma {:induction false} PendingTimeoutsCountInstalls(s: RefState, trace: seq<RefEvent>)
    ensures Run(s, trace).pendingTimeouts <= s.pendingTimeouts + Installs(trace)
    decreases |trace|
  {
    if trace != [] {
      PendingTimeoutsCountInstalls(Step(s, trace[0]), trace[1..]);
    }
  }

  /**
   * A match clears the reference and removes every queued timeout; until the next enroll
   * installs a reference, nothing (timeouts, failed or rejected enrolls, further matches) brings
   * back either.
   */
  lemma {:induction false} MatchCancelsAllTimeouts(s: RefState, trace: seq<RefEvent>)
    requires NoInstalls(trace)
    ensures Run(s, [Matched] + trace) == INITIAL
    decreases |trace|
  {
    if trace == [] {
      assert Run(s, [Matched]) == Run(INITIAL, []);
    } else {
      assert ([Matched] + trace)[1..] == trace;
      assert Step(INITIAL, trace[0]) == INITIAL;
      MatchCancelsAllTimeouts(s, trace[1..]);
      assert ([Matched] + trace[1..])[1..] == trace[1..];
    }
  }

  /**
   * Re-enrolling does not cancel the earlier timeout and the runnable does not check which
   * reference it was posted for: ten seconds after the first enroll the second reference is
   * cleared, and one run stays queued.
   */
  lemma StaleTimeoutClearsNewerInstall(s: RefState, e1: Embedding, e2: Embedding)
    ensures Run(s, [Installed(e1), Installed(e2), TimedOut]) == RefState(None, s.pendingTimeouts + 1)
  {
    var t1 := Step(s, Installed(e1));
    var t2 := Step(t1, Installed(e2));
    var t3 := Step(t2, TimedOut);
    assert t2 == RefState(Some(e2), s.pendingTimeouts + 2);
    assert t3 == RefState(None, s.pendingTimeouts + 1);
    assert Run(t2, [TimedOut]) == t3 by {
      assert [TimedOut][1..] == [];
    }
    assert Run(t1, [Installed(e2), TimedOut]) == t3 by {
      assert [Installed(e2), TimedOut][1..] == [TimedOut];
    }
    assert [Installed(e1), Installed(e2), TimedOut][1..] == [Installed(e2), TimedOut];
  }
}
