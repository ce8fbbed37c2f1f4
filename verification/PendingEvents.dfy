/** The set of prove events awaiting a verdict (op-monitorism/withdrawals-v2/monitor.go). */
module PendingEvents {
  import opened Basics
  import opened Hex
  import opened ProofRecovery
  import opened Assessment

  // ---- Keys ----------------------------------------------------------------------------------

  function Decimal(n: nat): (s: string)
    ensures s != ""
  {
    if n < 10 then [Digit(n)] else Decimal(n / 10) + [Digit(n % 10)]
  }

  function ParseDecimal(s: string): nat {
    if s == "" then 0
    else 10 * ParseDecimal(s[..|s| - 1]) + match NibbleOf(s[|s| - 1]) { case Some(d) => d case None => 0 }
  }

  lemma {:induction false} ParseDecimalOfDecimal(n: nat)
    ensures ParseDecimal(Decimal(n)) == n
  {
    NibbleOfDigit(n % 10);
    if n < 10 {
      assert Decimal(n)[..0] == "";
    } else {
      assert Decimal(n)[..|Decimal(n)| - 1] == Decimal(n / 10);
      ParseDecimalOfDecimal(n / 10);
    }
  }

  /** A prove event's key: transaction hash and log index. */
  function PendingKey(lg: Log): string { ToHex(lg.txHash) + ":" + Decimal(lg.index) }

  /** Two logs share a key only if they are the same log of the same transaction. */
  lemma {:induction false} PendingKeyInjective(a: Log, b: Log)
    requires PendingKey(a) == PendingKey(b)
    ensures a.txHash == b.txHash && a.index == b.index
  {
    var n := |ToHex(a.txHash)|;
    assert PendingKey(a)[..n] == ToHex(a.txHash) && PendingKey(b)[..n] == ToHex(b.txHash);
    assert PendingKey(a)[n + 1..] == Decimal(a.index) && PendingKey(b)[n + 1..] == Decimal(b.index);
    FromHexToHex(a.txHash);
    FromHexToHex(b.txHash);
    ParseDecimalOfDecimal(a.index);
    ParseDecimalOfDecimal(b.index);
  }

  // ---- The pending set -----------------------------------------------------------------------

  /** Seconds since the epoch of Go's zero time, the value IsZero tests for. */
  const ZERO_TIME: int := -62135596800

  datatype PendingEvent = PendingEvent(log: Log, wdHash: Hash, firstSeen: int)

  /** Parking keeps what is already there: the first sighting wins. */
  function Park<K, E>(pending: map<K, E>, key: K, e: E): map<K, E> {
    if key in pending then pending else pending[key := e]
  }

  function Release<K, E>(pending: map<K, E>, key: K): map<K, E> { pending - {key} }

  function SeenFirst(e: PendingEvent): int { e.firstSeen }

  /** The least of the times the events of a map have. */
  ghost predicate IsOldest<K(!new), E(!new)>(pending: map<K, E>, timeOf: E -> int, t: int) {
    && (exists k :: k in pending && timeOf(pending[k]) == t)
    && forall k :: k in pending ==> t <= timeOf(pending[k])
  }

  /** A snapshot holds every event of a map once, in some order. */
  ghost predicate HoldsEach<K(!new), E(!new)>(pending: map<K, E>, keyOf: E -> K, snapshot: seq<E>) {
    && |snapshot| == |pending|
    && (forall i :: 0 <= i < |snapshot| ==> keyOf(snapshot[i]) in pending && pending[keyOf(snapshot[i])] == snapshot[i])
    && (forall i, j :: 0 <= i < j < |snapshot| ==> keyOf(snapshot[i]) != keyOf(snapshot[j]))
  }

  function KeyOf(e: PendingEvent): string { PendingKey(e.log) }

  ghost predicate IsSnapshot(pending: map<string, PendingEvent>, snapshot: seq<PendingEvent>) { HoldsEach(pending, KeyOf, snapshot) }

  ghost predicate NoZeroTime(pending: map<string, PendingEvent>) {
    forall k :: k in pending ==> pending[k].firstSeen != ZERO_TIME
  }

  /** What the loop over the pending set knows after visiting these keys: their oldest time, or its mark. */
  ghost predicate OldestSoFar(pending: map<string, PendingEvent>, visited: set<string>, oldest: int) {
    NoZeroTime(pending) ==>
      if visited == {} then oldest == ZERO_TIME
      else
        && (exists k :: k in pending && k in visited && pending[k].firstSeen == oldest)
        && forall k :: k in pending && k in visited ==> oldest <= pending[k].firstSeen
  }

  lemma {:induction false} NoneVisited(pending: map<string, PendingEvent>)
    ensures OldestSoFar(pending, pending.Keys - pending.Keys, ZERO_TIME)
  {
  }

  lemma {:induction false} NoneOldest(pending: map<string, PendingEvent>)
    requires pending == map[]
    ensures forall t :: !IsOldest(pending, SeenFirst, t)
  {
  }

  lemma {:induction false} OldestStep(pending: map<string, PendingEvent>, visited: set<string>, oldest: int, k: string)
    requires OldestSoFar(pending, visited, oldest) && k in pending
    ensures OldestSoFar(pending, visited + {k}, if oldest == ZERO_TIME || pending[k].firstSeen < oldest then pending[k].firstSeen else oldest)
  {
  }

  lemma {:induction false} OldestOfAll(pending: map<string, PendingEvent>, oldest: int, t: int)
    requires OldestSoFar(pending, pending.Keys, oldest) && NoZeroTime(pending) && IsOldest(pending, SeenFirst, t)
    ensures t == oldest
  {
    var k :| k in pending && SeenFirst(pending[k]) == t;
    assert k in pending.Keys;
    var o :| o in pending && pending[o].firstSeen == oldest;
    assert t <= SeenFirst(pending[o]);
  }

  /** The number of pending events and the age of the oldest; a zero time among them spoils the age. */
  ghost predicate GaugesShow(pending: map<string, PendingEvent>, count: nat, age: int, now: int) {
    && count == |pending|
    && (pending == map[] ==> age == 0)
    && forall t :: IsOldest(pending, SeenFirst, t) && NoZeroTime(pending) ==> age == Max(now - t, 0)
  }

  /** The events left after those in `tried` were evaluated: the untried and the unresolved. */
  function StillOpen(pending: map<string, PendingEvent>, assess: PendingEvent -> Verdict, tried: set<string>): map<string, PendingEvent> {
    map k | k in pending && (k in tried ==> assess(pending[k]).Unresolved?) :: pending[k]
  }

  lemma {:induction false} NothingTried(pending: map<string, PendingEvent>, assess: PendingEvent -> Verdict)
    ensures StillOpen(pending, assess, {}) == pending
    ensures forall v :: With(pending, assess, {}, v) == {}
  {
  }

  lemma {:induction false} StillOpenStep(pending: map<string, PendingEvent>, assess: PendingEvent -> Verdict, tried: set<string>, key: string)
    requires key in pending && key !in tried
    ensures var open := StillOpen(pending, assess, tried);
            && key in open && open[key] == pending[key]
            && StillOpen(pending, assess, tried + {key}) == if assess(pending[key]).Unresolved? then open else open - {key}
  {
  }

  /** The events in `tried` whose evaluation gives this verdict. */
  function With(pending: map<string, PendingEvent>, assess: PendingEvent -> Verdict, tried: set<string>, v: Verdict): set<string> {
    set k | k in tried && k in pending && assess(pending[k]) == v
  }

  lemma {:induction false} WithStep(pending: map<string, PendingEvent>, assess: PendingEvent -> Verdict, tried: set<string>, key: string)
    requires key in pending && key !in tried
    ensures forall v :: |With(pending, assess, tried + {key}, v)| == |With(pending, assess, tried, v)| + if assess(pending[key]) == v then 1 else 0
  {
    forall v
      ensures |With(pending, assess, tried + {key}, v)| == |With(pending, assess, tried, v)| + if assess(pending[key]) == v then 1 else 0
    {
      var before, after := With(pending, assess, tried, v), With(pending, assess, tried + {key}, v);
      assert after == if assess(pending[key]) == v then before + {key} else before;
    }
  }

  /** Each terminal verdict given to the events in `tried` was counted once, in its own book. */
  ghost predicate BooksGrew(pending: map<string, PendingEvent>, assess: PendingEvent -> Verdict, tried: set<string>,
                            valid: nat, invalid: multiset<Reason>, validAfter: nat, invalidAfter: multiset<Reason>) {
    && validAfter == valid + |With(pending, assess, tried, Valid)|
    && forall r :: invalidAfter[r] == invalid[r] + |With(pending, assess, tried, Invalid(r))|
  }

  lemma {:induction false} NoBooksGrew(pending: map<string, PendingEvent>, assess: PendingEvent -> Verdict, valid: nat, invalid: multiset<Reason>)
    ensures BooksGrew(pending, assess, {}, valid, invalid, valid, invalid)
  {
    NothingTried(pending, assess);
  }

  lemma {:induction false} BooksGrowStep(pending: map<string, PendingEvent>, assess: PendingEvent -> Verdict, tried: set<string>, key: string,
                                         valid: nat, invalid: multiset<Reason>, validNow: nat, invalidNow: multiset<Reason>)
    requires BooksGrew(pending, assess, tried, valid, invalid, validNow, invalidNow) && key in pending && key !in tried
    ensures var v := assess(pending[key]);
            BooksGrew(pending, assess, tried + {key}, valid, invalid, validNow + if v.Valid? then 1 else 0,
                      invalidNow + if v.Invalid? then multiset{v.reason} else multiset{})
  {
    hide With;
    WithStep(pending, assess, tried, key);
  }

  /** The monitor's pending set with its counters and gauges. */
  class PendingMonitor {
    var pending: map<string, PendingEvent>
    var valid: nat
    var invalid: multiset<Reason>
    var unverifiable: multiset<Reason>
    var pendingGauge: nat
    var oldestPendingSeconds: int

    ghost predicate Consistent()
      reads this
    {
      forall k :: k in pending ==> k == PendingKey(pending[k].log)
    }

    constructor ()
      ensures Consistent() && pending == map[]
      ensures valid == 0 && invalid == multiset{} && unverifiable == multiset{}
    {
      pending, valid, invalid, unverifiable := map[], 0, multiset{}, multiset{};
      pendingGauge, oldestPendingSeconds := 0, 0;
    }

    method EnqueuePending(lg: Log, wdHash: Hash, firstSeen: int) returns (added: bool)
      requires Consistent()
      modifies this`pending, this`pendingGauge
      ensures Consistent()
      ensures added == (PendingKey(lg) !in old(pending))
      ensures pending == Park(old(pending), PendingKey(lg), PendingEvent(lg, wdHash, firstSeen))
      ensures pendingGauge == |pending|
    {
      var key := PendingKey(lg);
      var exists_ := key in pending;
      if !exists_ {
        pending := pending[key := PendingEvent(lg, wdHash, firstSeen)];
      }
      pendingGauge := |pending|;
      return !exists_;
    }

    method ResolvePending(lg: Log)
      requires Consistent()
      modifies this`pending, this`pendingGauge
      ensures Consistent()
      ensures pending == Release(old(pending), PendingKey(lg)) && pendingGauge == |pending|
    {
      pending := pending - {PendingKey(lg)};
      pendingGauge := |pending|;
    }

    /** Exactly one of the books changes: a terminal verdict releases, an open one parks. */
    method ApplyAssessment(v: Verdict, lg: Log, wdHash: Hash, firstSeen: int)
      requires Consistent()
      modifies this`pending, this`pendingGauge, this`valid, this`invalid, this`unverifiable
      ensures Consistent()
      ensures valid == old(valid) + if v.Valid? then 1 else 0
      ensures invalid == old(invalid) + if v.Invalid? then multiset{v.reason} else multiset{}
      ensures unverifiable == old(unverifiable)
                + if v.Unresolved? && PendingKey(lg) !in old(pending) then multiset{v.reason} else multiset{}
      ensures pending == if v.Unresolved? then Park(old(pending), PendingKey(lg), PendingEvent(lg, wdHash, firstSeen))
                         else Release(old(pending), PendingKey(lg))
      ensures valid + |invalid| + |pending|
           == old(valid + |invalid| + |pending|) + if PendingKey(lg) in old(pending) then 0 else 1
    {
      hide PendingKey;
      match v
      case Valid =>
        valid := valid + 1;
        ResolvePending(lg);
      case Invalid(reason) =>
        invalid := invalid + multiset{reason};
        ResolvePending(lg);
      case Unresolved(reason) =>
        var added := EnqueuePending(lg, wdHash, firstSeen);
        if added {
          unverifiable := unverifiable + multiset{reason};
        }
    }

    /** Evaluates one event of a snapshot of `before`, of which those in `tried` were evaluated already. */
    method RetryOne(e: PendingEvent, assess: PendingEvent -> Verdict, ghost before: map<string, PendingEvent>, ghost tried: set<string>,
                    ghost valid0: nat, ghost invalid0: multiset<Reason>)
      requires Consistent() && pending == StillOpen(before, assess, tried) && BooksGrew(before, assess, tried, valid0, invalid0, valid, invalid)
      requires var key := PendingKey(e.log); key in before && before[key] == e && key !in tried
      modifies this`pending, this`pendingGauge, this`valid, this`invalid, this`unverifiable
      ensures var after := tried + {PendingKey(e.log)};
              pending == StillOpen(before, assess, after) && BooksGrew(before, assess, after, valid0, invalid0, valid, invalid)
      ensures Consistent() && unverifiable == old(unverifiable)
      ensures valid + |invalid| + |pending| == old(valid + |invalid| + |pending|)
    {
      hide PendingKey, With, StillOpen, BooksGrew;
      StillOpenStep(before, assess, tried, PendingKey(e.log));
      BooksGrowStep(before, assess, tried, PendingKey(e.log), valid0, invalid0, valid, invalid);
      ApplyAssessment(assess(e), e.log, e.wdHash, e.firstSeen);
    }

    /**
     One pass over a snapshot of the pending set; the context ends the pass after `allowed` events.
     Tried events with a terminal verdict leave and are counted once, in the book of that verdict;
     every other event stays exactly as parked, and nothing is counted unverifiable again.
    */
    method RetryPendingOnce(assess: PendingEvent -> Verdict, allowed: nat, now: int) returns (ghost tried: set<string>)
      requires Consistent()
      modifies this
      ensures Consistent()
      ensures tried <= old(pending).Keys && |tried| == Min(allowed, |old(pending)|)
      ensures pending == StillOpen(old(pending), assess, tried)
      ensures BooksGrew(old(pending), assess, tried, old(valid), old(invalid), valid, invalid)
      ensures unverifiable == old(unverifiable)
      ensures valid + |invalid| + |pending| == old(valid + |invalid| + |pending|)
      ensures |old(pending)| <= allowed ==> GaugesShow(pending, pendingGauge, oldestPendingSeconds, now)
    {
      hide PendingKey, KeysOf, With, StillOpen, BooksGrew, GaugesShow, IsSnapshot;
      ghost var before := pending;
      var snapshot := SnapshotOf(pending);
      SnapshotSize(before, snapshot);
      NothingTried(before, assess);
      tried := {};
      NoBooksGrew(before, assess, valid, invalid);
      for i := 0 to |snapshot|
        invariant Consistent() && i <= allowed && tried == KeysOf(snapshot[..i])
        invariant pending == StillOpen(before, assess, tried) && unverifiable == old(unverifiable)
        invariant BooksGrew(before, assess, tried, old(valid), old(invalid), valid, invalid)
        invariant valid + |invalid| + |pending| == old(valid + |invalid| + |pending|)
      {
        KeysOfPrefix(before, snapshot, i);
        if i == allowed {
          return;
        }
        NextOfSnapshot(before, snapshot, i);
        RetryOne(snapshot[i], assess, before, tried, old(valid), old(invalid));
        tried := tried + {PendingKey(snapshot[i].log)};
      }
      KeysOfPrefix(before, snapshot, |snapshot|);
      UpdatePendingGauges(now);
    }

    /** The gauges follow the pending set; the reported age is that of its oldest event. */
    method UpdatePendingGauges(now: int)
      modifies this`pendingGauge, this`oldestPendingSeconds
      ensures GaugesShow(pending, pendingGauge, oldestPendingSeconds, now)
    {
      hide OldestSoFar, IsOldest, NoZeroTime;
      var todo := pending.Keys;
      var oldest := ZERO_TIME;
      NoneVisited(pending);
      while todo != {}
        invariant todo <= pending.Keys && OldestSoFar(pending, pending.Keys - todo, oldest)
        decreases |todo|
      {
        var k :| k in todo;
        OldestStep(pending, pending.Keys - todo, oldest, k);
        assert pending.Keys - (todo - {k}) == pending.Keys - todo + {k};
        todo := todo - {k};
        if oldest == ZERO_TIME || pending[k].firstSeen < oldest {
          oldest := pending[k].firstSeen;
        }
      }
      assert pending.Keys - {} == pending.Keys;
      forall t | IsOldest(pending, SeenFirst, t) && NoZeroTime(pending) ensures t == oldest {
        OldestOfAll(pending, oldest, t);
      }
      pendingGauge := |pending|;
      if |pending| == 0 {
        oldestPendingSeconds := 0;
        NoneOldest(pending);
      } else {
        oldestPendingSeconds := Max(now - oldest, 0);
      }
    }
  }

  // ---- Snapshots -----------------------------------------------------------------------------

  function KeysOf(events: seq<PendingEvent>): set<string> { set i | 0 <= i < |events| :: PendingKey(events[i].log) }

  lemma {:induction false} SnapshotSize(pending: map<string, PendingEvent>, snapshot: seq<PendingEvent>)
    requires IsSnapshot(pending, snapshot)
    ensures |snapshot| == |pending| && KeysOf(snapshot[..0]) == {}
  {
  }

  lemma {:induction false} KeysOfAppend(events: seq<PendingEvent>, e: PendingEvent)
    ensures KeysOf(events + [e]) == KeysOf(events) + {PendingKey(e.log)}
  {
    hide PendingKey;
    var more, key := events + [e], PendingKey(e.log);
    forall k | k in KeysOf(events) + {key} ensures k in KeysOf(more) {
      if k == key {
        assert PendingKey(more[|events|].log) == k;
      } else {
        var i :| 0 <= i < |events| && PendingKey(events[i].log) == k;
        assert PendingKey(more[i].log) == k;
      }
    }
  }

  /** The next event of a snapshot stands for itself and was not among those before it. */
  lemma {:induction false} NextOfSnapshot(pending: map<string, PendingEvent>, snapshot: seq<PendingEvent>, i: nat)
    requires IsSnapshot(pending, snapshot) && i < |snapshot|
    ensures var k := PendingKey(snapshot[i].log); k in pending && pending[k] == snapshot[i] && k !in KeysOf(snapshot[..i])
    ensures KeysOf(snapshot[..i + 1]) == KeysOf(snapshot[..i]) + {PendingKey(snapshot[i].log)}
  {
    hide PendingKey;
    KeysOfAppend(snapshot[..i], snapshot[i]);
    assert snapshot[..i] + [snapshot[i]] == snapshot[..i + 1];
    assert forall j :: 0 <= j < i ==> snapshot[..i][j] == snapshot[j];
  }

  lemma {:induction false} KeysOfPrefix(pending: map<string, PendingEvent>, snapshot: seq<PendingEvent>, i: nat)
    requires IsSnapshot(pending, snapshot) && i <= |snapshot|
    ensures KeysOf(snapshot[..i]) <= pending.Keys && |KeysOf(snapshot[..i])| == i
  {
    hide PendingKey, KeysOf, IsSnapshot;
    SnapshotSize(pending, snapshot);
    if i > 0 {
      NextOfSnapshot(pending, snapshot, i - 1);
      KeysOfPrefix(pending, snapshot, i - 1);
    }
  }

  method SnapshotOf(pending: map<string, PendingEvent>) returns (snapshot: seq<PendingEvent>)
    requires forall k :: k in pending ==> k == PendingKey(pending[k].log)
    ensures IsSnapshot(pending, snapshot)
  {
    hide PendingKey;
    snapshot := [];
    var todo := pending.Keys;
    while todo != {}
      invariant todo <= pending.Keys && |snapshot| + |todo| == |pending|
      invariant forall j :: 0 <= j < |snapshot| ==>
        var k := PendingKey(snapshot[j].log); k in pending && k !in todo && pending[k] == snapshot[j]
      invariant forall i, j :: 0 <= i < j < |snapshot| ==> PendingKey(snapshot[i].log) != PendingKey(snapshot[j].log)
      decreases |todo|
    {
      var k :| k in todo;
      snapshot := snapshot + [pending[k]];
      todo := todo - {k};
    }
  }
}
