/**
 The processor and the retry loop working on one pending set, as a state machine over their
 atomic actions (op-monitorism/withdrawals-v2/monitor.go, processLog to retryPendingOnce).

 Counter increments and critical sections under the mutex are single actions; everything between
 them, in particular the RPC work of an assessment, may interleave with the other thread.
*/
module VerdictProtocol {
  import opened Basics
  import opened PendingEvents

  /** A delivered prove event: its pending key and the time of its block. */
  datatype Event<K> = Event(key: K, firstSeen: int)

  /** Where a thread stands in evaluateAndApply. */
  datatype Activity<K> =
    | Idle
    | Assessing(e: Event<K>)  // verdict not yet recorded
    | Counted(e: Event<K>)    // terminal verdict counted, still to be released
    | Parked(e: Event<K>)     // newly parked, still to be counted unverifiable

  /** What the threads share; the counters record the keys they counted, in order. */
  datatype Books<!K> = Books(pending: map<K, Event<K>>, valid: seq<K>, invalid: seq<K>, unverifiable: seq<K>) {
    /** The event has its terminal verdict. */
    ghost predicate Judged(key: K) { key in valid || key in invalid }

    /** No event was counted twice, neither the same way nor both ways. */
    ghost predicate CountedOnce() {
      Distinct(valid) && Distinct(invalid) && Distinct(unverifiable) && forall k :: k in valid ==> k !in invalid
    }
  }

  datatype State<!K> = State(fed: nat, processor: Activity<K>, retrier: Activity<K>, snapshot: seq<Event<K>>, books: Books<K>)

  /** The event stream: distinct logs, from blocks with nondecreasing timestamps. */
  ghost predicate IsFeed<K(!new)>(feed: seq<Event<K>>) {
    forall i, j :: 0 <= i < j < |feed| ==> feed[i].key != feed[j].key && feed[i].firstSeen <= feed[j].firstSeen
  }

  ghost predicate Init<K(!new)>(s: State<K>) {
    s == State(0, Idle, Idle, [], Books(map[], [], [], []))
  }

  ghost predicate Counts<K(!new)>(a: Activity<K>, b: Books<K>, a': Activity<K>, b': Books<K>) {
    && a.Assessing? && a' == Counted(a.e)
    && (b' == b.(valid := b.valid + [a.e.key]) || b' == b.(invalid := b.invalid + [a.e.key]))
  }

  ghost predicate Parks<K(!new)>(a: Activity<K>, b: Books<K>, a': Activity<K>, b': Books<K>) {
    && a.Assessing? && a' == (if a.e.key in b.pending then Idle else Parked(a.e))
    && b' == b.(pending := Park(b.pending, a.e.key, a.e))
  }

  ghost predicate Releases<K(!new)>(a: Activity<K>, b: Books<K>, a': Activity<K>, b': Books<K>) {
    a.Counted? && a' == Idle && b' == b.(pending := Release(b.pending, a.e.key))
  }

  ghost predicate Notes<K(!new)>(a: Activity<K>, b: Books<K>, a': Activity<K>, b': Books<K>) {
    a.Parked? && a' == Idle && b' == b.(unverifiable := b.unverifiable + [a.e.key])
  }

  /** One atomic action of a thread inside evaluateAndApply. */
  ghost predicate Acts<K(!new)>(a: Activity<K>, b: Books<K>, a': Activity<K>, b': Books<K>) {
    Counts(a, b, a', b') || Parks(a, b, a', b') || Releases(a, b, a', b') || Notes(a, b, a', b')
  }

  ghost predicate Deliver<K(!new)>(feed: seq<Event<K>>, s: State<K>, s': State<K>) {
    s.processor.Idle? && s.fed < |feed| && s' == s.(fed := s.fed + 1, processor := Assessing(feed[s.fed]))
  }

  ghost predicate ProcessorActs<K(!new)>(s: State<K>, s': State<K>) {
    Acts(s.processor, s.books, s'.processor, s'.books) && s' == s.(processor := s'.processor, books := s'.books)
  }

  ghost predicate RetrierActs<K(!new)>(s: State<K>, s': State<K>) {
    Acts(s.retrier, s.books, s'.retrier, s'.books) && s' == s.(retrier := s'.retrier, books := s'.books)
  }

  function KeyIn<K>(e: Event<K>): K { e.key }

  ghost predicate TakeSnapshot<K(!new)>(s: State<K>, s': State<K>) {
    s.retrier.Idle? && s.snapshot == [] && HoldsEach(s.books.pending, KeyIn<K>, s'.snapshot) && s' == s.(snapshot := s'.snapshot)
  }

  ghost predicate RetryNext<K(!new)>(s: State<K>, s': State<K>) {
    s.retrier.Idle? && s.snapshot != [] && s' == s.(retrier := Assessing(s.snapshot[0]), snapshot := s.snapshot[1..])
  }

  /** The context ended: the rest of the pass is dropped. */
  ghost predicate Abandon<K(!new)>(s: State<K>, s': State<K>) {
    s.retrier.Idle? && s' == s.(snapshot := [])
  }

  ghost predicate Next<K(!new)>(feed: seq<Event<K>>, s: State<K>, s': State<K>) {
    || Deliver(feed, s, s') || ProcessorActs(s, s') || RetrierActs(s, s')
    || TakeSnapshot(s, s') || RetryNext(s, s') || Abandon(s, s')
  }

  /** A sequence of states, each reached from the one before by an action of some thread. */
  ghost predicate IsExecution<K(!new)>(feed: seq<Event<K>>, run: seq<State<K>>) {
    && run != []
    && Init(run[0])
    && forall i :: 0 <= i < |run| - 1 ==> Next(feed, run[i], run[i + 1])
  }

  ghost predicate IsRun<K(!new)>(feed: seq<Event<K>>, run: seq<State<K>>) {
    IsFeed(feed) && IsExecution(feed, run)
  }

  // ---- The invariant -------------------------------------------------------------------------

  ghost predicate Delivered<K(!new)>(feed: seq<Event<K>>, fed: nat, e: Event<K>) {
    exists i :: 0 <= i < fed <= |feed| && feed[i] == e
  }

  ghost predicate DeliveredKey<K(!new)>(feed: seq<Event<K>>, fed: nat, key: K) {
    exists i :: 0 <= i < fed <= |feed| && feed[i].key == key
  }

  ghost predicate PendingOk<K(!new)>(feed: seq<Event<K>>, s: State<K>) {
    && s.fed <= |feed|
    && (forall k :: k in s.books.pending ==> s.books.pending[k].key == k && Delivered(feed, s.fed, s.books.pending[k]))
    && (forall k :: k in s.books.pending && s.books.Judged(k) ==> s.retrier == Counted(s.books.pending[k]))
  }

  ghost predicate VerdictsOk<K(!new)>(feed: seq<Event<K>>, s: State<K>) {
    && s.books.CountedOnce()
    && (forall k :: s.books.Judged(k) ==> DeliveredKey(feed, s.fed, k))
    && (forall k :: k in s.books.unverifiable ==> DeliveredKey(feed, s.fed, k))
  }

  /** Nothing delivered is lost: only the event the processor is assessing is in no book. */
  ghost predicate Accounted<K(!new)>(feed: seq<Event<K>>, s: State<K>) {
    forall i :: 0 <= i < s.fed <= |feed| && feed[i].key !in s.books.pending && !s.books.Judged(feed[i].key) ==>
      s.processor == Assessing(feed[i])
  }

  ghost predicate ProcessorOk<K(!new)>(feed: seq<Event<K>>, s: State<K>) {
    match s.processor
    case Idle => true
    case Assessing(e) =>
      && 0 < s.fed <= |feed| && e == feed[s.fed - 1]
      && e.key !in s.books.pending && !s.books.Judged(e.key) && e.key !in s.books.unverifiable
    case Counted(e) =>
      && 0 < s.fed <= |feed| && e == feed[s.fed - 1] && s.books.Judged(e.key) && e.key !in s.books.pending
    case Parked(e) => 0 < s.fed <= |feed| && e == feed[s.fed - 1] && e.key !in s.books.unverifiable
  }

  ghost predicate Retryable<K(!new)>(s: State<K>, e: Event<K>) {
    e.key in s.books.pending && s.books.pending[e.key] == e
  }

  ghost predicate RetrierOk<K(!new)>(s: State<K>) {
    && !s.retrier.Parked?
    && (!s.retrier.Idle? ==> Retryable(s, s.retrier.e) && forall i :: 0 <= i < |s.snapshot| ==> s.snapshot[i].key != s.retrier.e.key)
    && (s.retrier.Assessing? ==> !s.books.Judged(s.retrier.e.key))
    && (s.retrier.Counted? ==> s.books.Judged(s.retrier.e.key))
    && (forall i :: 0 <= i < |s.snapshot| ==> Retryable(s, s.snapshot[i]))
    && (forall i, j :: 0 <= i < j < |s.snapshot| ==> s.snapshot[i].key != s.snapshot[j].key)
  }

  /** Conservation, at every point of every interleaving. */
  ghost predicate Balanced<K(!new)>(s: State<K>) {
    s.fed + (if s.retrier.Counted? then 1 else 0)
    == |s.books.valid| + |s.books.invalid| + |s.books.pending| + (if s.processor.Assessing? then 1 else 0)
  }

  ghost predicate Inv<K(!new)>(feed: seq<Event<K>>, s: State<K>) {
    && PendingOk(feed, s) && VerdictsOk(feed, s) && Accounted(feed, s)
    && ProcessorOk(feed, s) && RetrierOk(s) && Balanced(s)
  }

  lemma {:induction false} DeliverKeepsInv<K(!new)>(feed: seq<Event<K>>, s: State<K>, s': State<K>)
    requires IsFeed(feed) && Inv(feed, s) && Deliver(feed, s, s')
    ensures Inv(feed, s')
  {
    var e := feed[s.fed];
    forall k | DeliveredKey(feed, s.fed, k) ensures k != e.key && DeliveredKey(feed, s'.fed, k) {}
    forall k | k in s.books.pending ensures k != e.key && Delivered(feed, s'.fed, s.books.pending[k]) {}
  }

  lemma {:induction false} ActKeepsAccounts<K(!new)>(feed: seq<Event<K>>, s: State<K>, s': State<K>, e: Event<K>)
    requires Accounted(feed, s) && s'.fed == s.fed
    requires forall k :: s.books.Judged(k) ==> s'.books.Judged(k)
    requires forall k :: k in s.books.pending && k != e.key ==> k in s'.books.pending
    requires e.key in s'.books.pending || s'.books.Judged(e.key)
    requires s.processor.Assessing? ==> s'.processor == s.processor || s.processor.e == e
    ensures Accounted(feed, s')
  {
    forall i | 0 <= i < s'.fed <= |feed| && feed[i].key !in s'.books.pending && !s'.books.Judged(feed[i].key)
      ensures s'.processor == Assessing(feed[i])
    {
      assert feed[i].key !in s.books.pending && !s.books.Judged(feed[i].key);
    }
  }

  lemma {:induction false} DeliveredHasKey<K(!new)>(feed: seq<Event<K>>, fed: nat, e: Event<K>)
    ensures Delivered(feed, fed, e) ==> DeliveredKey(feed, fed, e.key)
  {
  }

  lemma {:induction false} ProcessorCounts<K(!new)>(feed: seq<Event<K>>, s: State<K>, s': State<K>)
    requires IsFeed(feed) && Inv(feed, s) && ProcessorActs(s, s') && Counts(s.processor, s.books, s'.processor, s'.books)
    ensures Inv(feed, s')
  {
    hide IsFeed, Delivered;
    ActKeepsAccounts(feed, s, s', s.processor.e);
  }

  lemma {:induction false} ProcessorParks<K(!new)>(feed: seq<Event<K>>, s: State<K>, s': State<K>)
    requires IsFeed(feed) && Inv(feed, s) && ProcessorActs(s, s') && Parks(s.processor, s.books, s'.processor, s'.books)
    ensures Inv(feed, s')
  {
    hide IsFeed, DeliveredKey;
    ActKeepsAccounts(feed, s, s', s.processor.e);
  }

  lemma {:induction false} ProcessorReleases<K(!new)>(feed: seq<Event<K>>, s: State<K>, s': State<K>)
    requires IsFeed(feed) && Inv(feed, s) && ProcessorActs(s, s') && Releases(s.processor, s.books, s'.processor, s'.books)
    ensures Inv(feed, s')
  {
    hide Delivered, DeliveredKey, IsFeed, Books.CountedOnce, Books.Judged;
    var pending, e := s.books.pending, s.processor.e;
    assert e.key !in pending;
    assert Release(pending, e.key) == pending;
    assert s' == s.(processor := Idle);
  }

  lemma {:induction false} ProcessorNotes<K(!new)>(feed: seq<Event<K>>, s: State<K>, s': State<K>)
    requires IsFeed(feed) && Inv(feed, s) && ProcessorActs(s, s') && Notes(s.processor, s.books, s'.processor, s'.books)
    ensures Inv(feed, s')
  {
  }

  lemma {:induction false} RetrierCounts<K(!new)>(feed: seq<Event<K>>, s: State<K>, s': State<K>)
    requires IsFeed(feed) && Inv(feed, s) && RetrierActs(s, s') && Counts(s.retrier, s.books, s'.retrier, s'.books)
    ensures Inv(feed, s')
  {
    hide IsFeed, Delivered, DeliveredKey;
    DeliveredHasKey(feed, s.fed, s.retrier.e);
    ActKeepsAccounts(feed, s, s', s.retrier.e);
  }

  lemma {:induction false} RetrierParks<K(!new)>(feed: seq<Event<K>>, s: State<K>, s': State<K>)
    requires IsFeed(feed) && Inv(feed, s) && RetrierActs(s, s') && Parks(s.retrier, s.books, s'.retrier, s'.books)
    ensures Inv(feed, s')
  {
    hide IsFeed, Delivered, DeliveredKey, Books.CountedOnce;
    ActKeepsAccounts(feed, s, s', s.retrier.e);
  }

  lemma {:induction false} RetrierReleases<K(!new)>(feed: seq<Event<K>>, s: State<K>, s': State<K>)
    requires IsFeed(feed) && Inv(feed, s) && RetrierActs(s, s') && Releases(s.retrier, s.books, s'.retrier, s'.books)
    ensures Inv(feed, s')
  {
    hide IsFeed, Delivered, DeliveredKey;
    ActKeepsAccounts(feed, s, s', s.retrier.e);
  }

  lemma {:induction false} SnapshotKeepsInv<K(!new)>(feed: seq<Event<K>>, s: State<K>, s': State<K>)
    requires IsFeed(feed) && Inv(feed, s) && (TakeSnapshot(s, s') || RetryNext(s, s') || Abandon(s, s'))
    ensures Inv(feed, s')
  {
    hide IsFeed, Delivered, DeliveredKey, Books.CountedOnce;
  }

  lemma {:induction false} StepKeepsInv<K(!new)>(feed: seq<Event<K>>, s: State<K>, s': State<K>)
    requires IsFeed(feed) && Inv(feed, s) && Next(feed, s, s')
    ensures Inv(feed, s')
  {
    if Deliver(feed, s, s') { DeliverKeepsInv(feed, s, s'); }
    else if ProcessorActs(s, s') {
      if Counts(s.processor, s.books, s'.processor, s'.books) { ProcessorCounts(feed, s, s'); }
      else if Parks(s.processor, s.books, s'.processor, s'.books) { ProcessorParks(feed, s, s'); }
      else if Releases(s.processor, s.books, s'.processor, s'.books) { ProcessorReleases(feed, s, s'); }
      else { ProcessorNotes(feed, s, s'); }
    } else if RetrierActs(s, s') {
      if Counts(s.retrier, s.books, s'.retrier, s'.books) { RetrierCounts(feed, s, s'); }
      else if Parks(s.retrier, s.books, s'.retrier, s'.books) { RetrierParks(feed, s, s'); }
      else { RetrierReleases(feed, s, s'); }
    }
    else { SnapshotKeepsInv(feed, s, s'); }
  }

  lemma {:induction false} EveryStateInv<K(!new)>(feed: seq<Event<K>>, run: seq<State<K>>, i: nat)
    requires IsRun(feed, run) && i < |run|
    ensures Inv(feed, run[i])
  {
    if i > 0 {
      EveryStateInv(feed, run, i - 1);
      StepKeepsInv(feed, run[i - 1], run[i]);
    }
  }

  // ---- What every run guarantees -------------------------------------------------------------

  /**
   In every state of every interleaving: no event gets two terminal verdicts or is counted
   unverifiable twice, only delivered events are in the books, and a delivered event is pending
   or has its verdict unless the processor is just assessing it.
  */
  lemma {:induction false} NoEventLostOrJudgedTwice<K(!new)>(feed: seq<Event<K>>, run: seq<State<K>>, i: nat)
    requires IsRun(feed, run) && i < |run|
    ensures var s := run[i];
            && s.books.CountedOnce()
            && (forall k :: s.books.Judged(k) || k in s.books.unverifiable || k in s.books.pending ==>
                  DeliveredKey(feed, s.fed, k))
            && (forall j :: 0 <= j < s.fed <= |feed| && s.processor != Assessing(feed[j]) ==>
                  feed[j].key in s.books.pending || s.books.Judged(feed[j].key))
  {
    EveryStateInv(feed, run, i);
    var s := run[i];
    forall k | k in s.books.pending ensures DeliveredKey(feed, s.fed, k) {
      assert Delivered(feed, s.fed, s.books.pending[k]);
    }
  }

  /** With no thread inside an evaluation: delivered = valid + invalid + pending, and these are disjoint. */
  lemma {:induction false} QuietConservation<K(!new)>(feed: seq<Event<K>>, run: seq<State<K>>, i: nat)
    requires IsRun(feed, run) && i < |run| && run[i].processor.Idle? && run[i].retrier.Idle?
    ensures var b := run[i].books;
            && run[i].fed == |b.valid| + |b.invalid| + |b.pending|
            && forall k :: k in b.pending ==> !b.Judged(k)
  {
    EveryStateInv(feed, run, i);
  }

  lemma {:induction false} StepKeepsVerdicts<K(!new)>(feed: seq<Event<K>>, s: State<K>, s': State<K>)
    requires Next(feed, s, s')
    ensures s.books.valid <= s'.books.valid && s.books.invalid <= s'.books.invalid
    ensures s.books.unverifiable <= s'.books.unverifiable && s.fed <= s'.fed
  {
  }

  /** Verdicts are final: what was counted stays counted the same way for the rest of the run. */
  lemma {:induction false} VerdictsAreFinal<K(!new)>(feed: seq<Event<K>>, run: seq<State<K>>, i: nat, j: nat)
    requires IsRun(feed, run) && i <= j < |run|
    ensures run[i].books.valid <= run[j].books.valid && run[i].books.invalid <= run[j].books.invalid
    ensures run[i].fed <= run[j].fed
  {
    if i < j {
      VerdictsAreFinal(feed, run, i, j - 1);
      StepKeepsVerdicts(feed, run[j - 1], run[j]);
    }
  }

  /** Whatever is newly counted, is counted by what its proof is worth. */
  ghost predicate CountsTruly<K(!new)>(sound: K -> bool, s: State<K>, s': State<K>) {
    && (forall k :: k in s'.books.valid && k !in s.books.valid ==> sound(k))
    && forall k :: k in s'.books.invalid && k !in s.books.invalid ==> !sound(k)
  }

  lemma {:induction false} CountedTruly<K(!new)>(feed: seq<Event<K>>, run: seq<State<K>>, i: nat, sound: K -> bool)
    requires IsRun(feed, run) && i < |run|
    requires forall j :: 0 <= j < |run| - 1 ==> CountsTruly(sound, run[j], run[j + 1])
    ensures forall k :: k in run[i].books.valid ==> sound(k)
    ensures forall k :: k in run[i].books.invalid ==> !sound(k)
  {
    if i > 0 {
      CountedTruly(feed, run, i - 1, sound);
      assert CountsTruly(sound, run[i - 1], run[i - 1 + 1]);
    }
  }

  /**
   No false and no missed alarm, under every interleaving: if each terminal verdict says what the
   event's own proof is worth, then of the delivered events that are neither pending nor just being
   assessed exactly those with an unsound proof are counted invalid, and the others valid.
  */
  lemma {:induction false} NoFalseOrMissedAlarm<K(!new)>(feed: seq<Event<K>>, run: seq<State<K>>, i: nat, sound: K -> bool, a: nat)
    requires IsRun(feed, run) && i < |run|
    requires forall j :: 0 <= j < |run| - 1 ==> CountsTruly(sound, run[j], run[j + 1])
    requires a < run[i].fed <= |feed| && run[i].processor != Assessing(feed[a]) && feed[a].key !in run[i].books.pending
    ensures feed[a].key in run[i].books.invalid <==> !sound(feed[a].key)
    ensures feed[a].key in run[i].books.valid <==> sound(feed[a].key)
  {
    NoEventLostOrJudgedTwice(feed, run, i);
    CountedTruly(feed, run, i, sound);
  }

  // ---- The oldest pending event --------------------------------------------------------------

  /** Nothing pending, in the processor's hands or still to be delivered is older than t. */
  ghost predicate NoOlderThan<K(!new)>(feed: seq<Event<K>>, s: State<K>, t: int) {
    && (forall k :: k in s.books.pending ==> t <= s.books.pending[k].firstSeen)
    && (s.processor.Assessing? ==> t <= s.processor.e.firstSeen)
    && (forall i :: s.fed <= i < |feed| ==> t <= feed[i].firstSeen)
  }

  lemma {:induction false} StepKeepsBound<K(!new)>(feed: seq<Event<K>>, s: State<K>, s': State<K>, t: int)
    requires Inv(feed, s) && Next(feed, s, s') && NoOlderThan(feed, s, t)
    ensures NoOlderThan(feed, s', t)
  {
    hide VerdictsOk, Accounted, Balanced, Delivered, DeliveredKey, Books.CountedOnce, Books.Judged, HoldsEach;
  }

  lemma {:induction false} RunKeepsBound<K(!new)>(feed: seq<Event<K>>, run: seq<State<K>>, i: nat, j: nat, t: int)
    requires IsRun(feed, run) && i <= j < |run| && NoOlderThan(feed, run[i], t)
    ensures NoOlderThan(feed, run[j], t)
  {
    hide Inv, Next, NoOlderThan, IsFeed, Init;
    if i < j {
      RunKeepsBound(feed, run, i, j - 1, t);
      EveryStateInv(feed, run, j - 1);
      StepKeepsBound(feed, run[j - 1], run[j], t);
    }
  }

  function SeenAt<K>(e: Event<K>): int { e.firstSeen }

  /**
   The oldest pending time never goes back, whatever is resolved, parked and emptied in between:
   with blocks delivered in time order its age cannot be understated later on.
  */
  lemma {:induction false} OldestNeverGoesBack<K(!new)>(feed: seq<Event<K>>, run: seq<State<K>>, i: nat, j: nat, t: int, t': int)
    requires IsRun(feed, run) && i <= j < |run|
    requires IsOldest(run[i].books.pending, SeenAt<K>, t) && IsOldest(run[j].books.pending, SeenAt<K>, t')
    ensures t <= t'
  {
    EveryStateInv(feed, run, i);
    var k :| k in run[i].books.pending && SeenAt(run[i].books.pending[k]) == t;
    var a :| 0 <= a < run[i].fed <= |feed| && feed[a] == run[i].books.pending[k];
    assert NoOlderThan(feed, run[i], t);
    RunKeepsBound(feed, run, i, j, t);
  }

  /** While an event stays pending its first sighting does not change: it is the delivered one. */
  lemma {:induction false} FirstSeenIsDelivery<K(!new)>(feed: seq<Event<K>>, run: seq<State<K>>, i: nat, a: nat)
    requires IsRun(feed, run) && i < |run| && a < |feed| && feed[a].key in run[i].books.pending
    ensures run[i].books.pending[feed[a].key] == feed[a] && a < run[i].fed
  {
    EveryStateInv(feed, run, i);
    var e := run[i].books.pending[feed[a].key];
    var b :| 0 <= b < run[i].fed <= |feed| && feed[b] == e;
  }
}
