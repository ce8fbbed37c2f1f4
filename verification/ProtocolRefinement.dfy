/**
 The pending set of the program, changed in place, follows the protocol of its two threads
 (op-monitorism/withdrawals-v2/monitor.go, applyAssessment and retryPendingOnce).
*/
module ProtocolRefinement {
  import opened Assessment
  import opened PendingEvents
  import opened VerdictProtocol

  /** What the protocol sees of a pending event. */
  function Seen(e: PendingEvent): Event<string> { Event(PendingKey(e.log), e.firstSeen) }

  function SeenMap(pending: map<string, PendingEvent>): map<string, Event<string>> {
    map k | k in pending :: Seen(pending[k])
  }

  /** The pending set after ApplyAssessment, as its contract states it. */
  function Applied(pending: map<string, PendingEvent>, v: Verdict, e: PendingEvent): map<string, PendingEvent> {
    if v.Unresolved? then Park(pending, PendingKey(e.log), e) else Release(pending, PendingKey(e.log))
  }

  /** The keys counted by ApplyAssessment: one more under its verdict, or under unverifiable if newly parked. */
  function CountedIn(b: Books<string>, v: Verdict, key: string): Books<string> {
    match v
    case Valid => b.(valid := b.valid + [key])
    case Invalid(_) => b.(invalid := b.invalid + [key])
    case Unresolved(_) => if key in b.pending then b else b.(unverifiable := b.unverifiable + [key])
  }

  /** The thread between its two actions, if there are two. */
  function Halfway(b: Books<string>, v: Verdict, e: Event<string>): Activity<string> {
    if !v.Unresolved? then Counted(e) else if e.key in b.pending then Idle else Parked(e)
  }

  function HalfwayBooks(b: Books<string>, v: Verdict, e: Event<string>): Books<string> {
    if v.Unresolved? then b.(pending := Park(b.pending, e.key, e)) else CountedIn(b, v, e.key)
  }

  lemma {:induction false} SeenPark(pending: map<string, PendingEvent>, e: PendingEvent)
    ensures SeenMap(Park(pending, PendingKey(e.log), e)) == Park(SeenMap(pending), PendingKey(e.log), Seen(e))
    ensures SeenMap(Release(pending, PendingKey(e.log))) == Release(SeenMap(pending), PendingKey(e.log))
  {
    hide PendingKey;
    var key := PendingKey(e.log);
    assert Seen(e) == Event(key, e.firstSeen);
  }

  /**
   One evaluation is a path of the protocol from Assessing to Idle: a terminal verdict is counted
   and then released, an open one is parked and then, if new, counted unverifiable. In between the
   other thread may act.
  */
  lemma {:induction false} EvaluationFollowsProtocol(pending: map<string, PendingEvent>, b: Books<string>, v: Verdict, e: PendingEvent)
    requires b.pending == SeenMap(pending)
    ensures var seen := Seen(e);
            var after := CountedIn(b, v, seen.key).(pending := SeenMap(Applied(pending, v, e)));
            var half, at := HalfwayBooks(b, v, seen), Halfway(b, v, seen);
            && Acts(Assessing(seen), b, at, half)
            && if at.Idle? then half == after else Acts(at, half, Idle, after)
  {
    SeenPark(pending, e);
    hide PendingKey, SeenMap;
    var seen := Seen(e);
    var half, at := HalfwayBooks(b, v, seen), Halfway(b, v, seen);
    if v.Unresolved? {
      assert Parks(Assessing(seen), b, at, half);
    } else {
      assert Counts(Assessing(seen), b, at, half);
    }
  }

  /** A snapshot of the program is one of the protocol. */
  lemma {:induction false} SnapshotFollowsProtocol(pending: map<string, PendingEvent>, snapshot: seq<PendingEvent>)
    requires IsSnapshot(pending, snapshot)
    ensures HoldsEach(SeenMap(pending), KeyIn<string>, seq(|snapshot|, i requires 0 <= i < |snapshot| => Seen(snapshot[i])))
  {
    hide PendingKey;
    assert SeenMap(pending).Keys == pending.Keys;
  }
}
