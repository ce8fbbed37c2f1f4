/**
 What the counters of the monitor say about the withdrawals themselves: assessments that may lack
 traces, receipts or contract answers, composed with the protocol of the two threads
 (op-monitorism/withdrawals-v2/monitor.go, evaluateAndApply, assess and recoverProof).
*/
module Alarms {
  import opened Basics
  import opened Hex
  import opened CallTrace
  import opened Pairing
  import opened ProofRecovery
  import opened Assessment
  import opened PendingEvents
  import opened VerdictProtocol
  import opened ProtocolRefinement

  /** A prove event on the chain: the k-th of its receipt, and the true trace of its transaction. */
  datatype Proven = Proven(root: CallFrame, receipt: seq<Log>, timing: Timing, k: nat) {
    /** The receipt belongs to the trace, and no successful call proving this hash contains another one. */
    ghost predicate Sound(m: Monitor) {
      && Records(m, receipt, root, timing) && k < |ProveEvents(m, receipt)|
      && NoNesting(root, EmitsHash(m, ProveEvents(m, receipt)[k].topics[1]))
    }

    /** The very call that emitted the event. */
    ghost function OwnCall(m: Monitor): CallFrame
      requires Sound(m)
    {
      OwnCallEmits(m, root, receipt, timing, k);
      At(root, Emitted(root, [], EmitsAny(m), timing)[k])
    }

    function LogIn(m: Monitor): Log
      requires k < |ProveEvents(m, receipt)|
    {
      ProveEvents(m, receipt)[k]
    }
  }

  /** What the nodes answer during one assessment; answers may be missing. */
  datatype Attempt = Attempt(replies: seq<TraceReply>, receipt: Option<seq<Log>>, contracts: Contracts) {
    /** Nothing that is answered is wrong. */
    ghost predicate Honest(p: Proven, truth: Contracts) {
      && |replies| == 3
      && (forall i :: 0 <= i < 3 ==> replies[i].TraceError? || replies[i] == Trace(p.root))
      && (receipt.None? || receipt == Some(p.receipt))
      && PartOf(contracts, truth)
    }

    /** Everything that decides is answered: the receipt only where more than one call proves the hash. */
    ghost predicate Complete(m: Monitor, p: Proven, truth: Contracts)
      requires p.Sound(m)
    {
      && Trace(p.root) in replies && contracts == truth
      && (receipt == Some(p.receipt) || OneProver(m, p.root, p.LogIn(m).topics[1]))
    }
  }

  ghost predicate PartOf(c: Contracts, truth: Contracts) {
    && (forall p :: c.rootClaim(p).Some? ==> c.rootClaim(p) == truth.rootClaim(p))
    && (forall p, id :: c.rootClaimByChainId(p, id).Some? ==> c.rootClaimByChainId(p, id) == truth.rootClaimByChainId(p, id))
    && (c.l2ChainId.Some? ==> c.l2ChainId == truth.l2ChainId)
  }

  /** The verdict of one attempt. */
  function Outcome(m: Monitor, a: Attempt, p: Proven): Verdict
    requires |a.replies| == 3 && p.k < |ProveEvents(m, p.receipt)|
  {
    AssessmentOf(m, a.contracts, FirstUsable(m, a.replies), a.receipt, p.LogIn(m), p.LogIn(m).topics[1])
  }

  /** What the proof is worth: the judgement on the very call that emitted the event, from the true answers. */
  ghost function Worth(m: Monitor, truth: Contracts, p: Proven): Verdict
    requires p.Sound(m)
  {
    VerdictConcernsOwnCall(m, truth, p.root, p.receipt, p.timing, p.k);
    JudgeCall(m, truth, At(p.root, Emitted(p.root, [], EmitsAny(m), p.timing)[p.k]), p.LogIn(m).topics[1])
  }

  /** The call that emitted the event proved a withdrawal that is in the storage of the root its game claims. */
  ghost predicate Genuine(m: Monitor, truth: Contracts, p: Proven) {
    p.Sound(m) && GoodProof(m, truth, p.OwnCall(m), p.LogIn(m).topics[1])
  }

  /** That call was accepted although its output root is not the claimed one, or the withdrawal is not shown to be in it. */
  ghost predicate Forged(m: Monitor, truth: Contracts, p: Proven) {
    && p.Sound(m)
    && (WrongRoot(m, truth, p.OwnCall(m), p.LogIn(m).topics[1]) || NotIncluded(m, truth, p.OwnCall(m), p.LogIn(m).topics[1]))
  }

  lemma {:induction false} WorthExactly(m: Monitor, truth: Contracts, p: Proven)
    requires p.Sound(m)
    ensures Worth(m, truth, p).Valid? <==> Genuine(m, truth, p)
    ensures Worth(m, truth, p).Invalid? <==> Forged(m, truth, p)
  {
    hide Records, NoNesting, Emitted, EmitsHash, JudgeCall, GoodProof, WrongRoot, NotIncluded;
    VerdictConcernsOwnCall(m, truth, p.root, p.receipt, p.timing, p.k);
    OwnCallEmits(m, p.root, p.receipt, p.timing, p.k);
    JudgedExactly(m, truth, p.OwnCall(m), p.LogIn(m).topics[1]);
  }

  // ---- One assessment ----------------------------------------------------------------------------

  /** The attempts at tracing end with the true trace or without any. */
  lemma {:induction false} TraceOrNothing(m: Monitor, root: CallFrame, replies: seq<TraceReply>)
    requires replies != [] && forall i :: 0 <= i < |replies| ==> replies[i].TraceError? || replies[i] == Trace(root)
    ensures FirstUsable(m, replies).Err? || FirstUsable(m, replies) == TraceOf(m, Trace(root))
    ensures Trace(root) in replies && TraceOf(m, Trace(root)).Ok? ==> FirstUsable(m, replies) == TraceOf(m, Trace(root))
  {
    hide TraceOf;
    if |replies| > 1 {
      TraceOrNothing(m, root, replies[1..]);
    }
    assert forall message :: TraceOf(m, TraceError(message)).Err? by {
      forall message ensures TraceOf(m, TraceError(message)).Err? { FailedTrace(m, message); }
    }
  }

  lemma {:induction false} FailedTrace(m: Monitor, message: string)
    ensures TraceOf(m, TraceError(message)).Err?
  {
  }

  /** Without the receipt a call is selected only where the receipt would select the same. */
  lemma {:induction false} ReceiptOrNothing(m: Monitor, calls: seq<TracedProveCall>, receipt: seq<Log>, lg: Log, wdHash: Hash)
    ensures var s := Select(m, calls, None, lg, wdHash); s.None? || s == Select(m, calls, Some(receipt), lg, wdHash)
  {
  }

  lemma {:induction false} RecoveryOrNothing(m: Monitor, traced: Result<Traced, string>, full: Result<Traced, string>,
                                             receipt: Option<seq<Log>>, whole: seq<Log>, lg: Log, wdHash: Hash)
    requires full.Ok? ==> PointsIntoTrace(full.value)
    requires traced.Err? || traced == full
    requires receipt.None? || receipt == Some(whole)
    ensures var r := Recover(m, traced, receipt, lg, wdHash); r.Unrecovered? || r == Recover(m, full, Some(whole), lg, wdHash)
  {
    hide Select, ReadCall, Mentions;
    if traced.Ok? {
      ReceiptOrNothing(m, traced.value.calls, whole, lg, wdHash);
    }
  }

  lemma {:induction false} PartialAnswers(lib: Library, c: Contracts, truth: Contracts, wdHash: Hash, part: Recovery, full: Recovery)
    requires PartOf(c, truth) && (part.Unrecovered? || part == full)
    ensures Judge(lib, c, wdHash, part).Unresolved? || Judge(lib, c, wdHash, part) == Judge(lib, truth, wdHash, full)
  {
    hide VerifyProof;
  }

  /**
   Whatever is missing, an assessment leaves the event open or gives the one verdict its own proof
   is worth; and if nothing that decides is missing, it gives that verdict.
  */
  lemma {:induction false} OpenOrWorth(m: Monitor, truth: Contracts, p: Proven, a: Attempt)
    requires p.Sound(m) && a.Honest(p, truth)
    ensures Outcome(m, a, p).Unresolved? || Outcome(m, a, p) == Worth(m, truth, p)
    ensures a.Complete(m, p, truth) ==> Outcome(m, a, p) == Worth(m, truth, p)
  {
    hide FromHex, VerifyProof, Select, ReadCall, Records, NoNesting, Emitted, EmitsAny, EmitsHash, TraceOf, FirstUsable, Judge, Recover, JudgeCall;
    var lg := p.LogIn(m);
    var full := TraceOf(m, Trace(p.root));
    VerdictConcernsOwnCall(m, truth, p.root, p.receipt, p.timing, p.k);
    TraceOrNothing(m, p.root, a.replies);
    RecoveryOrNothing(m, FirstUsable(m, a.replies), full, a.receipt, p.receipt, lg, lg.topics[1]);
    PartialAnswers(m.lib, a.contracts, truth, lg.topics[1], Recover(m, FirstUsable(m, a.replies), a.receipt, lg, lg.topics[1]),
                   Recover(m, full, Some(p.receipt), lg, lg.topics[1]));
    TraceIsUsable(m, p);
    if a.Complete(m, p, truth) && a.receipt.None? {
      ReceiptNotNeeded(m, p.root, Some(p.receipt), lg, lg.topics[1]);
    }
  }

  /** The trace of a transaction with a prove event holds a prove call. */
  lemma {:induction false} TraceIsUsable(m: Monitor, p: Proven)
    requires p.Sound(m)
    ensures TraceOf(m, Trace(p.root)).Ok?
  {
    hide Emitted, Records, NoNesting, ProveCalls, Within;
    PairingIsExact(m, p.root, p.receipt, p.timing, p.k);
    SelectedIsCandidate(m, ProveCalls(m.portal, p.root, []), Some(p.receipt), p.LogIn(m), p.LogIn(m).topics[1]);
  }

  // ---- All assessments of a run ------------------------------------------------------------------

  /** The attempt was made at this event, and nothing it was told is wrong. */
  ghost predicate MadeAt(m: Monitor, truth: Contracts, a: Attempt, p: Proven) { p.Sound(m) && a.Honest(p, truth) }

  /** Whatever is newly counted, is counted by the verdict of this attempt at that very event. */
  ghost predicate CountsOutcome(m: Monitor, truth: Contracts, chain: string -> Proven, a: Attempt, b: Books<string>, b': Books<string>) {
    && (forall k :: k in b'.valid && k !in b.valid ==> MadeAt(m, truth, a, chain(k)) && Outcome(m, a, chain(k)).Valid?)
    && forall k :: k in b'.invalid && k !in b.invalid ==> MadeAt(m, truth, a, chain(k)) && Outcome(m, a, chain(k)).Invalid?
  }

  /** An evaluation of the program does so, by both of its actions. */
  lemma {:induction false} EvaluationCountsOutcome(m: Monitor, truth: Contracts, chain: string -> Proven, a: Attempt,
                                                   b: Books<string>, e: Event<string>)
    requires MadeAt(m, truth, a, chain(e.key))
    ensures var v := Outcome(m, a, chain(e.key));
            var half := HalfwayBooks(b, v, e);
            CountsOutcome(m, truth, chain, a, b, half) && CountsOutcome(m, truth, chain, a, half, CountedIn(b, v, e.key))
  {
    hide Proven.Sound, Attempt.Honest, Outcome;
  }

  lemma {:induction false} OutcomeIsTrue(m: Monitor, truth: Contracts, chain: string -> Proven, a: Attempt, s: State<string>, s': State<string>)
    requires CountsOutcome(m, truth, chain, a, s.books, s'.books)
    ensures CountsTruly(k => Genuine(m, truth, chain(k)), s, s')
    ensures forall k :: k in s'.books.invalid && k !in s.books.invalid ==> Forged(m, truth, chain(k))
  {
    hide Proven.Sound, Attempt.Honest, Outcome, Worth, Genuine, Forged;
    forall k | k in s'.books.valid && k !in s.books.valid ensures Genuine(m, truth, chain(k)) {
      OpenOrWorth(m, truth, chain(k), a);
      WorthExactly(m, truth, chain(k));
    }
    forall k | k in s'.books.invalid && k !in s.books.invalid ensures Forged(m, truth, chain(k)) && !Genuine(m, truth, chain(k)) {
      OpenOrWorth(m, truth, chain(k), a);
      WorthExactly(m, truth, chain(k));
    }
  }

  /** A run in which step n counts by the verdict of attempt n. */
  ghost predicate Assessed(m: Monitor, truth: Contracts, chain: string -> Proven, attempts: nat -> Attempt, run: seq<State<string>>) {
    forall n: nat :: n < |run| - 1 ==> CountsOutcome(m, truth, chain, attempts(n), run[n].books, run[n + 1].books)
  }

  lemma {:induction false} InvalidIsForged(m: Monitor, truth: Contracts, chain: string -> Proven, attempts: nat -> Attempt,
                                           feed: seq<Event<string>>, run: seq<State<string>>, i: nat, key: string)
    requires IsRun(feed, run) && Assessed(m, truth, chain, attempts, run) && i < |run| && key in run[i].books.invalid
    ensures Forged(m, truth, chain(key))
  {
    hide CountsOutcome, Proven.Sound, Worth, IsFeed, Next, Forged;
    if key !in run[i - 1].books.invalid {
      OutcomeIsTrue(m, truth, chain, attempts(i - 1), run[i - 1], run[i]);
    } else {
      InvalidIsForged(m, truth, chain, attempts, feed, run, i - 1, key);
    }
  }

  /**
   No false and no missed alarm, end to end: with any answers missing at any attempt, but none wrong,
   and under every interleaving, a delivered event that is neither pending nor just being assessed is
   counted invalid exactly if the call that emitted it carried a forged proof, and valid exactly if its
   proof was genuine. An event whose game or claim cannot be told from true answers stays pending for ever.
  */
  lemma {:induction false} AlarmsAreRight(m: Monitor, truth: Contracts, chain: string -> Proven, attempts: nat -> Attempt,
                                          feed: seq<Event<string>>, run: seq<State<string>>, i: nat, j: nat)
    requires IsRun(feed, run) && Assessed(m, truth, chain, attempts, run) && i < |run|
    requires j < run[i].fed <= |feed| && run[i].processor != Assessing(feed[j]) && chain(feed[j].key).Sound(m)
    ensures var key, p := feed[j].key, chain(feed[j].key);
            key in run[i].books.pending
            || ((Genuine(m, truth, p) || Forged(m, truth, p))
                && (key in run[i].books.invalid <==> Forged(m, truth, p)) && (key in run[i].books.valid <==> Genuine(m, truth, p)))
  {
    hide CountsOutcome, Proven.Sound, Worth, Next, CountsTruly, Genuine, Forged;
    var key := feed[j].key;
    if key !in run[i].books.pending {
      forall n | 0 <= n < |run| - 1 ensures CountsTruly(k => Genuine(m, truth, chain(k)), run[n], run[n + 1]) {
        OutcomeIsTrue(m, truth, chain, attempts(n), run[n], run[n + 1]);
      }
      NoFalseOrMissedAlarm(feed, run, i, k => Genuine(m, truth, chain(k)), j);
      WorthExactly(m, truth, chain(key));
      if key in run[i].books.invalid {
        InvalidIsForged(m, truth, chain, attempts, feed, run, i, key);
      }
    }
  }
}
