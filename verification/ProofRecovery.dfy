/**
 From a prove event to its verdict: trace, candidate selection, historical game, verification
 (op-monitorism/withdrawals-v2/monitor.go, recoverProof, eventOrdinal, assess, verifyProof).
*/
module ProofRecovery {
  import opened Basics
  import opened Hex
  import opened CallTrace
  import opened GameLookup
  import opened Pairing

  const TRACE_ATTEMPTS: nat := 3
  const PROVE_METHOD_NAME: string := "proveWithdrawalTransaction"

  datatype Reason =
    | BadOutputRootBinding
    | BadWithdrawalProof
    | TraceUnavailable
    | NoProveCallFound
    | GameReadError

  datatype OutputRootProof = OutputRootProof(version: Hash, stateRoot: Hash, storageRoot: Hash, blockhash: Hash)

  datatype DecodedProof = DecodedProof(
    withdrawalTx: seq<Byte>,
    disputeGameIndex: nat,
    outputRootProof: OutputRootProof,
    withdrawalProof: seq<seq<Byte>>)

  datatype Log = Log(address: nat, topics: seq<Hash>, txHash: Hash, index: nat)

  /** The libraries behind the monitor: calldata decoding, withdrawal hashing, keccak, the trie. */
  datatype Library = Library(
    decode: seq<Byte> -> Option<DecodedProof>,
    withdrawalHash: seq<Byte> -> Option<Hash>,
    keccak: seq<Byte> -> Hash,
    trieValue: (Hash, Hash, map<Hash, seq<Byte>>) -> Option<seq<Byte>>)

  datatype Monitor = Monitor(portal: Portal, portalAddress: nat, provenTopic: Hash, lib: Library)

  // ---- Tracing -----------------------------------------------------------------------------

  /** One answer of debug_traceTransaction. */
  datatype TraceReply = TraceError(message: string) | Trace(root: CallFrame)

  /** A trace together with its prove calls; the calls' frames are addresses into the trace. */
  datatype Traced = Traced(root: CallFrame, calls: seq<TracedProveCall>)

  predicate PointsIntoTrace(t: Traced) {
    forall c :: c in t.calls ==> Within(t.root, c.frame)
  }

  function TraceOf(m: Monitor, reply: TraceReply): (r: Result<Traced, string>)
    ensures r.Ok? ==> r.value.calls != [] && PointsIntoTrace(r.value)
  {
    match reply
    case TraceError(message) => Err(message)
    case Trace(root) =>
      var calls := ProveCalls(m.portal, root, []);
      ProveCallsPointIntoTrace(m.portal, root);
      if calls == [] then Err("no " + PROVE_METHOD_NAME + " call to portal found in trace")
      else Ok(Traced(root, calls))
  }

  lemma {:induction false} ProveCallsPointIntoTrace(portal: Portal, root: CallFrame)
    ensures PointsIntoTrace(Traced(root, ProveCalls(portal, root, [])))
  {
    var ps, calls := ProvePaths(portal, root), ProveCalls(portal, root, []);
    forall c | c in calls ensures Within(root, c.frame) {
      var k :| 0 <= k < |calls| && calls[k] == c;
      assert ps[k] in ps;
      assert c.frame == [] + ps[k] == ps[k];
    }
  }

  method TraceProveCalls(m: Monitor, reply: TraceReply) returns (r: Result<Traced, string>)
    ensures r == TraceOf(m, reply)
  {
    match reply
    case TraceError(message) => return Err(message);
    case Trace(root) =>
      var found := new ProveCallList();
      CollectProveCalls(m.portal, root, [], found);
      var calls := found.items;
      assert calls == ProveCalls(m.portal, root, []);
      if calls == [] {
        return Err("no " + PROVE_METHOD_NAME + " call to portal found in trace");
      }
      return Ok(Traced(root, calls));
  }

  /** The first usable answer of the attempts made, or else the error of the last one. */
  function FirstUsable(m: Monitor, replies: seq<TraceReply>): (r: Result<Traced, string>)
    requires replies != []
    ensures r.Ok? ==> r.value.calls != [] && PointsIntoTrace(r.value)
  {
    var first := TraceOf(m, replies[0]);
    if first.Ok? || |replies| == 1 then first else FirstUsable(m, replies[1..])
  }

  predicate Mentions(message: string, word: string) {
    word <= message || (message != [] && Mentions(message[1..], word))
  }

  // ---- Selecting the call of one event -------------------------------------------------------

  function ProofIn(m: Monitor, input: seq<Byte>): Option<DecodedProof> {
    if |input| < 4 then None else m.lib.decode(input[4..])
  }

  /** The withdrawal hash a prove call's arguments commit to, if they decode. */
  function HashIn(m: Monitor, input: seq<Byte>): Option<Hash> {
    match ProofIn(m, input)
    case None => None
    case Some(proof) => m.lib.withdrawalHash(proof.withdrawalTx)
  }

  function Matches(m: Monitor, wdHash: Hash): TracedProveCall -> bool {
    (c: TracedProveCall) => HashIn(m, c.input) == Some(wdHash)
  }

  function ProveLogs(m: Monitor): Log -> bool {
    (lg: Log) => lg.address == m.portalAddress && |lg.topics| >= 2 && lg.topics[0] == m.provenTopic
  }

  function ProveLogsOf(m: Monitor, wdHash: Hash): Log -> bool {
    (lg: Log) => lg.address == m.portalAddress && |lg.topics| >= 2 && lg.topics[0] == m.provenTopic && lg.topics[1] == wdHash
  }

  function PositionOf(logs: seq<Log>, index: nat): (r: Option<nat>)
    ensures r.Some? ==> r.value < |logs| && logs[r.value].index == index
    ensures r.Some? ==> forall j :: 0 <= j < r.value ==> logs[j].index != index
    ensures r.None? ==> forall j :: 0 <= j < |logs| ==> logs[j].index != index
  {
    if logs == [] then None
    else if logs[0].index == index then Some(0)
    else match PositionOf(logs[1..], index)
      case None => None
      case Some(k) => Some(k + 1)
  }

  function Ordinal(m: Monitor, receipt: Option<seq<Log>>, lg: Log, wdHash: Hash): Option<nat> {
    match receipt
    case None => None
    case Some(logs) => PositionOf(Filter(logs, ProveLogsOf(m, wdHash)), lg.index)
  }

  /** Position of the event among the portal's logs for the same withdrawal hash in the receipt. */
  method EventOrdinal(m: Monitor, receipt: Option<seq<Log>>, lg: Log, wdHash: Hash) returns (r: Option<nat>)
    ensures r == Ordinal(m, receipt, lg, wdHash)
  {
    if receipt.None? {
      return None;
    }
    var logs := receipt.value;
    ghost var keep := ProveLogsOf(m, wdHash);
    var ordinal := 0;
    for i := 0 to |logs|
      invariant ordinal == |Filter(logs[..i], keep)|
      invariant forall j :: 0 <= j < ordinal ==> Filter(logs[..i], keep)[j].index != lg.index
    {
      var rl := logs[i];
      FilterStep(logs, i, keep);
      if rl.address != m.portalAddress || |rl.topics| < 2 || rl.topics[0] != m.provenTopic || rl.topics[1] != wdHash {
        continue;
      }
      if rl.index == lg.index {
        FilterPosition(logs, i, keep);
        FilterAppend(logs[..i], logs[i..], keep);
        assert logs[..i] + logs[i..] == logs;
        return Some(ordinal);
      }
      ordinal := ordinal + 1;
    }
    assert logs[..|logs|] == logs;
    return None;
  }

  function Select(m: Monitor, calls: seq<TracedProveCall>, receipt: Option<seq<Log>>, lg: Log, wdHash: Hash): Option<TracedProveCall> {
    var candidates := Filter(calls, Matches(m, wdHash));
    if |candidates| == 0 then None
    else if |candidates| == 1 then Some(candidates[0])
    else match Ordinal(m, receipt, lg, wdHash)
      case None => None
      case Some(k) => if k < |candidates| then Some(candidates[k]) else None
  }

  lemma {:induction false} SelectedIsCandidate(m: Monitor, calls: seq<TracedProveCall>, receipt: Option<seq<Log>>, lg: Log, wdHash: Hash)
    ensures Select(m, calls, receipt, lg, wdHash).Some? ==>
              var c := Select(m, calls, receipt, lg, wdHash).value;
              c in calls && HashIn(m, c.input) == Some(wdHash)
  {
    FilterMembers(calls, Matches(m, wdHash));
  }

  datatype Recovery =
    | Recovered(proof: DecodedProof, game: Game)
    | Unrecovered(reason: Reason)

  /** The proof of one prove call and the game that call looked up. */
  function ReadCall(m: Monitor, frame: CallFrame, proof: DecodedProof): Recovery {
    match GameFromProveTrace(frame, proof.disputeGameIndex)
    case Err(_) => Unrecovered(GameReadError)
    case Ok(game) => Recovered(proof, game)
  }

  function Recover(m: Monitor, traced: Result<Traced, string>, receipt: Option<seq<Log>>, lg: Log, wdHash: Hash): Recovery
    requires traced.Ok? ==> PointsIntoTrace(traced.value)
  {
    match traced
    case Err(message) =>
      Unrecovered(if Mentions(message, PROVE_METHOD_NAME) then NoProveCallFound else TraceUnavailable)
    case Ok(Traced(root, calls)) =>
      SelectedIsCandidate(m, calls, receipt, lg, wdHash);
      match Select(m, calls, receipt, lg, wdHash)
      case None => Unrecovered(NoProveCallFound)
      case Some(c) => ReadCall(m, At(root, c.frame), ProofIn(m, c.input).value)
  }

  /** The calls whose arguments decode and commit to this hash, in trace order. */
  method CandidatesFor(m: Monitor, calls: seq<TracedProveCall>, wdHash: Hash) returns (candidates: seq<TracedProveCall>)
    ensures candidates == Filter(calls, Matches(m, wdHash))
  {
    ghost var keep := Matches(m, wdHash);
    candidates := [];
    for i := 0 to |calls|
      invariant candidates == Filter(calls[..i], keep)
    {
      FilterStep(calls, i, keep);
      var proof := ProofIn(m, calls[i].input);
      if proof.None? {
        continue;
      }
      var candidateHash := m.lib.withdrawalHash(proof.value.withdrawalTx);
      if candidateHash.None? {
        continue;
      }
      if candidateHash.value == wdHash {
        candidates := candidates + [calls[i]];
      }
    }
    assert calls[..|calls|] == calls;
  }

  method RecoverProof(m: Monitor, replies: seq<TraceReply>, receipt: Option<seq<Log>>, lg: Log, wdHash: Hash) returns (r: Recovery)
    requires |replies| == 3
    ensures r == Recover(m, FirstUsable(m, replies), receipt, lg, wdHash)
  {
    hide Filter, GameFromProveTrace, Mentions, Within, At;
    var traced: Result<Traced, string> := TraceProveCalls(m, replies[0]);
    var attempt := 1;
    while traced.Err? && attempt < TRACE_ATTEMPTS
      invariant 1 <= attempt <= TRACE_ATTEMPTS
      invariant traced == TraceOf(m, replies[attempt - 1])
      invariant FirstUsable(m, replies) == FirstUsable(m, replies[attempt - 1..])
    {
      assert replies[attempt - 1..][1..] == replies[attempt..];
      traced := TraceProveCalls(m, replies[attempt]);
      attempt := attempt + 1;
    }
    if traced.Err? {
      return Unrecovered(if Mentions(traced.error, PROVE_METHOD_NAME) then NoProveCallFound else TraceUnavailable);
    }
    var calls := traced.value.calls;
    var candidates := CandidatesFor(m, calls, wdHash);
    SelectedIsCandidate(m, calls, receipt, lg, wdHash);
    if |candidates| == 0 {
      return Unrecovered(NoProveCallFound);
    }
    var selected := candidates[0];
    if |candidates| > 1 {
      var ordinal := EventOrdinal(m, receipt, lg, wdHash);
      if ordinal.None? || ordinal.value >= |candidates| {
        return Unrecovered(NoProveCallFound);
      }
      selected := candidates[ordinal.value];
    }
    assert Select(m, calls, receipt, lg, wdHash) == Some(selected);
    r := ReadCall(m, At(traced.value.root, selected.frame), ProofIn(m, selected.input).value);
  }

  // ---- The pairing theorem -------------------------------------------------------------------

  /** A successful prove call whose arguments decode, for any withdrawal or for one hash. */
  function EmitsAny(m: Monitor): Header -> bool {
    h => IsProveCall(m.portal, h) && HashIn(m, FromHex(h.input)).Some?
  }

  function EmitsHash(m: Monitor, wdHash: Hash): Header -> bool {
    h => IsProveCall(m.portal, h) && HashIn(m, FromHex(h.input)) == Some(wdHash)
  }

  /** The portal's prove events in a receipt, in receipt order. */
  function ProveEvents(m: Monitor, receipt: seq<Log>): (logs: seq<Log>)
    ensures forall k :: 0 <= k < |logs| ==> ProveLogs(m)(logs[k])
  {
    FilterMembers(receipt, ProveLogs(m));
    var logs := Filter(receipt, ProveLogs(m));
    assert forall k :: 0 <= k < |logs| ==> logs[k] in logs;
    logs
  }

  predicate IncreasingIndex(logs: seq<Log>) {
    forall i, j :: 0 <= i < j < |logs| ==> logs[i].index < logs[j].index
  }

  /**
   The receipt of the traced transaction: among any other logs, the portal's prove logs are
   those its successful decodable prove calls emitted, in emission order, each with the
   withdrawal hash of its own call.
  */
  ghost predicate Records(m: Monitor, receipt: seq<Log>, root: CallFrame, timing: Timing) {
    var emitted := Emitted(root, [], EmitsAny(m), timing);
    var logs := ProveEvents(m, receipt);
    && IncreasingIndex(receipt)
    && |logs| == |emitted|
    && forall k :: 0 <= k < |logs| ==> forall wdHash ::
         Passes(root, EmitsHash(m, wdHash))(emitted[k]) <==> ProveLogsOf(m, wdHash)(logs[k])
  }

  predicate ProveFrames(m: Monitor, f: CallFrame, ps: seq<Path>) {
    forall p :: p in ps ==> Within(f, p) && IsProveCall(m.portal, At(f, p).head)
  }

  lemma {:induction false} SameTest(m: Monitor, f: CallFrame, p: Path, wdHash: Hash)
    requires Within(f, p) && IsProveCall(m.portal, At(f, p).head)
    ensures Passes(f, EmitsHash(m, wdHash))(p)
         == Matches(m, wdHash)(TracedProveCall(FromHex(At(f, p).head.input), [] + p))
  {
    assert Passes(f, EmitsHash(m, wdHash))(p) == (Within(f, p) && EmitsHash(m, wdHash)(At(f, p).head));
  }

  lemma {:induction false} TracedCons(f: CallFrame, p: Path, ps: seq<Path>)
    requires Within(f, p) && forall q :: q in ps ==> Within(f, q)
    ensures forall q :: q in [p] + ps ==> Within(f, q)
    ensures TracedAt(f, [], [p] + ps) == [TracedProveCall(FromHex(At(f, p).head.input), [] + p)] + TracedAt(f, [], ps)
  {
  }

  lemma {:induction false} FilterTraced(m: Monitor, f: CallFrame, ps: seq<Path>, wdHash: Hash)
    requires ProveFrames(m, f, ps)
    ensures var kept := Filter(ps, Passes(f, EmitsHash(m, wdHash)));
            && ProveFrames(m, f, kept)
            && Filter(TracedAt(f, [], ps), Matches(m, wdHash)) == TracedAt(f, [], kept)
  {
    FilterMembers(ps, Passes(f, EmitsHash(m, wdHash)));
    if ps != [] {
      var p, rest := ps[0], ps[1..];
      assert ps == [p] + rest;
      var call := TracedProveCall(FromHex(At(f, p).head.input), [] + p);
      SameTest(m, f, p, wdHash);
      FilterTraced(m, f, rest, wdHash);
      TracedCons(f, p, rest);
      TracedCons(f, p, Filter(rest, Passes(f, EmitsHash(m, wdHash))));
      FilterAppend([call], TracedAt(f, [], rest), Matches(m, wdHash));
      FilterOne(call, Matches(m, wdHash));
      assert ps[1..] == rest && ps[0] == p;
    }
  }

  /** The candidates for a hash are the calls of its live frames, in call order. */
  lemma {:induction false} CandidatesAreCalls(m: Monitor, root: CallFrame, wdHash: Hash)
    ensures var ps := LivePaths(root, EmitsHash(m, wdHash));
            && (forall p :: p in ps ==> Within(root, p))
            && Filter(ProveCalls(m.portal, root, []), Matches(m, wdHash)) == TracedAt(root, [], ps)
  {
    LivePathsExact(root, ProveCallsTo(m.portal));
    FilterTraced(m, root, ProvePaths(m.portal, root), wdHash);
    LivePathsRestrict(root, ProveCallsTo(m.portal), EmitsHash(m, wdHash));
  }

  lemma {:induction false} FilterIncreasing(logs: seq<Log>, keep: Log -> bool)
    requires IncreasingIndex(logs)
    ensures IncreasingIndex(Filter(logs, keep))
  {
    if logs != [] {
      var rest := Filter(logs[1..], keep);
      FilterIncreasing(logs[1..], keep);
      FilterMembers(logs[1..], keep);
      forall j | 0 <= j < |rest| ensures logs[0].index < rest[j].index {
        assert rest[j] in logs[1..];
      }
    }
  }

  /**
   The call selected for the k-th prove log is the call that emitted it. The only assumption on
   the trace is that no successful call proving this hash contains another one; whether the
   single-candidate shortcut or the ordinal decides, and whenever in their execution the calls
   emit, the answer is the same.
  */
  lemma {:induction false} PairingIsExact(m: Monitor, root: CallFrame, receipt: seq<Log>, timing: Timing, k: nat)
    requires Records(m, receipt, root, timing)
    requires k < |ProveEvents(m, receipt)|
    requires NoNesting(root, EmitsHash(m, ProveEvents(m, receipt)[k].topics[1]))
    ensures var lg, frame := ProveEvents(m, receipt)[k], Emitted(root, [], EmitsAny(m), timing)[k];
            && Within(root, frame)
            && Select(m, ProveCalls(m.portal, root, []), Some(receipt), lg, lg.topics[1])
            == Some(TracedProveCall(FromHex(At(root, frame).head.input), frame))
  {
    hide Emitted, LivePaths, Within, FromHex, ProveCalls, Filter, NoNesting;
    var logs, emitted := ProveEvents(m, receipt), Emitted(root, [], EmitsAny(m), timing);
    var wdHash := logs[k].topics[1];
    var emitsHash, logsOf := Passes(root, EmitsHash(m, wdHash)), ProveLogsOf(m, wdHash);
    assert logsOf(logs[k]) && emitsHash(emitted[k]);
    // the emissions of this hash, and the calls proving it
    EmittedRestricts(root, [], EmitsAny(m), EmitsHash(m, wdHash), timing);
    EmissionOrderIsCallOrder(root, [], EmitsHash(m, wdHash), timing);
    CandidatesAreCalls(m, root, wdHash);
    var own := LivePaths(root, EmitsHash(m, wdHash));
    assert own == Filter(emitted, emitsHash);
    // both filters keep the k-th element at the same position
    FilterPosition(emitted, k, emitsHash);
    FilterTwice(receipt, ProveLogs(m), logsOf);
    FilterPosition(logs, k, logsOf);
    FilterAlike(emitted[..k], logs[..k], emitsHash, logsOf);
    FilterAlike(emitted, logs, emitsHash, logsOf);
    var r := |Filter(emitted[..k], emitsHash)|;
    assert own[r] == emitted[k];
    FilterIncreasing(receipt, logsOf);
    assert PositionOf(Filter(receipt, logsOf), logs[k].index) == Some(r);
    assert [] + own[r] == own[r] && own[r] in own;
  }

  lemma {:induction false} SameEffectSameCalls(portal: Portal, f: CallFrame, g: CallFrame)
    requires SameEffect(f, g)
    ensures ProveCalls(portal, f, []) == ProveCalls(portal, g, [])
    ensures forall c :: c in ProveCalls(portal, f, []) ==> Within(f, c.frame) && Live(f, c.frame)
  {
    var ps, calls := ProvePaths(portal, f), ProveCalls(portal, f, []);
    SameEffectSamePaths(f, g, ProveCallsTo(portal));
    LivePathsExact(f, ProveCallsTo(portal));
    forall k | 0 <= k < |ps| ensures calls[k] == ProveCalls(portal, g, [])[k] && Within(f, calls[k].frame) && Live(f, calls[k].frame) {
      assert ps[k] in ps;
      assert [] + ps[k] == ps[k];
      SameEffectAt(f, g, ps[k]);
    }
  }

  /** Nothing below a reverted frame influences what is recovered for an event. */
  lemma {:induction false} RevertedFramesDoNotChangeRecovery(m: Monitor, f: CallFrame, g: CallFrame, receipt: Option<seq<Log>>, lg: Log, wdHash: Hash)
    requires SameEffect(f, g)
    ensures Recover(m, TraceOf(m, Trace(f)), receipt, lg, wdHash) == Recover(m, TraceOf(m, Trace(g)), receipt, lg, wdHash)
  {
    var calls := ProveCalls(m.portal, f, []);
    SameEffectSameCalls(m.portal, f, g);
    SelectedIsCandidate(m, calls, receipt, lg, wdHash);
    var chosen := Select(m, calls, receipt, lg, wdHash);
    if chosen.Some? {
      var frame := chosen.value.frame;
      SameEffectAt(f, g, frame);
      LiveFrameHasNoError(f, frame);
      RevertedFramesDoNotChangeGame(At(f, frame), At(g, frame), ProofIn(m, chosen.value.input).value.disputeGameIndex);
    }
  }

  lemma {:induction false} LiveFrameHasNoError(f: CallFrame, p: Path)
    requires Within(f, p) && Live(f, p)
    ensures At(f, p).error == ""
  {
    if p != [] { LiveFrameHasNoError(f.calls[p[0]], p[1..]); }
  }

  // ---- What is recovered, without reference to how -----------------------------------------------

  /** The frame is a call of the portal that proves the withdrawal of this hash by these arguments. */
  ghost predicate Proves(m: Monitor, h: Header, wdHash: Hash, d: DecodedProof) {
    exists args :: CallsProve(m.portal, h, args) && m.lib.decode(args) == Some(d) && m.lib.withdrawalHash(d.withdrawalTx) == Some(wdHash)
  }

  lemma {:induction false} EmitsExactly(m: Monitor, h: Header, wdHash: Hash)
    ensures EmitsHash(m, wdHash)(h) <==> exists d :: Proves(m, h, wdHash, d)
    ensures forall d :: Proves(m, h, wdHash, d) <==> EmitsHash(m, wdHash)(h) && ProofIn(m, FromHex(h.input)) == Some(d)
  {
    hide FromHex, SameButForCase, IsProveCall;
    ProveCallExactly(m.portal, h);
    forall args | CallsProve(m.portal, h, args) ensures FromHex(h.input)[4..] == args {}
    forall d ensures Proves(m, h, wdHash, d) <==> EmitsHash(m, wdHash)(h) && ProofIn(m, FromHex(h.input)) == Some(d) {}
  }

  /** The call of this frame proves the hash by d, and looked this game up for the index that d names. */
  ghost predicate ProvenAgainst(m: Monitor, frame: CallFrame, wdHash: Hash, d: DecodedProof, game: Game) {
    Proves(m, frame.head, wdHash, d) && GameOfCall(frame, d.disputeGameIndex, game)
  }

  /**
   What is recovered for the k-th prove log, exactly: the arguments of the very call that emitted
   it, and the game that this call looked up for the index in its own arguments. If it looked none
   up, or the answer is unusable, the reason is a game read error.
  */
  lemma {:induction false} RecoveredExactly(m: Monitor, root: CallFrame, receipt: seq<Log>, timing: Timing, k: nat, d: DecodedProof, game: Game)
    requires Records(m, receipt, root, timing)
    requires k < |ProveEvents(m, receipt)|
    requires NoNesting(root, EmitsHash(m, ProveEvents(m, receipt)[k].topics[1]))
    ensures var lg, frame := ProveEvents(m, receipt)[k], Emitted(root, [], EmitsAny(m), timing)[k];
            var r := Recover(m, TraceOf(m, Trace(root)), Some(receipt), lg, lg.topics[1]);
            && Within(root, frame)
            && (r == Recovered(d, game) <==> ProvenAgainst(m, At(root, frame), lg.topics[1], d, game))
            && (r.Recovered? || r == Unrecovered(GameReadError))
  {
    hide Records, NoNesting, Emitted, FromHex, GameFromProveTrace, GameOfCall, ProveCalls, HashIn, Proves;
    PairingIsExact(m, root, receipt, timing, k);
    OwnCallEmits(m, root, receipt, timing, k);
    var lg, path := ProveEvents(m, receipt)[k], Emitted(root, [], EmitsAny(m), timing)[k];
    var wdHash, frame := lg.topics[1], At(root, path);
    EmitsExactly(m, frame.head, wdHash);
    var own :| Proves(m, frame.head, wdHash, own);
    GameExactly(frame, own.disputeGameIndex, game);
  }

  /** The frame that emitted the k-th prove log is one that emits for its hash. */
  lemma {:induction false} OwnCallEmits(m: Monitor, root: CallFrame, receipt: seq<Log>, timing: Timing, k: nat)
    requires Records(m, receipt, root, timing) && k < |ProveEvents(m, receipt)|
    ensures k < |Emitted(root, [], EmitsAny(m), timing)|
    ensures var path := Emitted(root, [], EmitsAny(m), timing)[k];
            Within(root, path) && EmitsHash(m, ProveEvents(m, receipt)[k].topics[1])(At(root, path).head)
  {
    hide Emitted, EmitsHash;
    var logs, path := ProveEvents(m, receipt), Emitted(root, [], EmitsAny(m), timing)[k];
    var wdHash := logs[k].topics[1];
    assert ProveLogs(m)(logs[k]) && ProveLogsOf(m, wdHash)(logs[k]);
    assert Passes(root, EmitsHash(m, wdHash))(path);
  }

  /** If the call looked its game up in the ABI encoding, exactly that factory, type and proxy are recovered. */
  lemma {:induction false} EncodedGameIsRecovered(m: Monitor, root: CallFrame, receipt: seq<Log>, timing: Timing, k: nat, d: DecodedProof,
                                                 p: Path, factory: nat, gameType: nat, timestamp: nat, proxy: nat)
    requires Records(m, receipt, root, timing)
    requires k < |ProveEvents(m, receipt)|
    requires NoNesting(root, EmitsHash(m, ProveEvents(m, receipt)[k].topics[1]))
    requires 0 < factory < Pow256(20) && 0 < proxy < Pow256(20) && gameType < TWO_32
    requires var lg, frame := ProveEvents(m, receipt)[k], Emitted(root, [], EmitsAny(m), timing)[k];
             && Within(root, frame) && Proves(m, At(root, frame).head, lg.topics[1], d)
             && IsFirstLookup(At(root, frame), d.disputeGameIndex, p)
             && At(At(root, frame), p).head == LookupHeader(d.disputeGameIndex, factory, gameType, timestamp, proxy)
    ensures var lg := ProveEvents(m, receipt)[k];
            Recover(m, TraceOf(m, Trace(root)), Some(receipt), lg, lg.topics[1]) == Recovered(d, Game(factory, gameType, proxy))
  {
    hide Records, NoNesting, Emitted, Proves, Answers, Recover, ToHex, Word, LooksUp;
    var game := Game(factory, gameType, proxy);
    OwnCallEmits(m, root, receipt, timing, k);
    var frame := At(root, Emitted(root, [], EmitsAny(m), timing)[k]);
    EncodedAnswer(At(frame, p).head, factory, gameType, timestamp, proxy, game);
    assert GameOfCall(frame, d.disputeGameIndex, game);
    RecoveredExactly(m, root, receipt, timing, k, d, game);
  }

  /** p is a frame that took effect and proves this hash. */
  ghost predicate LiveProver(m: Monitor, root: CallFrame, wdHash: Hash, p: Path) {
    Within(root, p) && Live(root, p) && exists d :: Proves(m, At(root, p).head, wdHash, d)
  }

  ghost predicate OneProver(m: Monitor, root: CallFrame, wdHash: Hash) {
    forall p, q :: LiveProver(m, root, wdHash, p) && LiveProver(m, root, wdHash, q) ==> p == q
  }

  /** Where only one call of the transaction proves the hash, the receipt is not asked for. */
  lemma {:induction false} ReceiptNotNeeded(m: Monitor, root: CallFrame, receipt: Option<seq<Log>>, lg: Log, wdHash: Hash)
    requires OneProver(m, root, wdHash)
    ensures Select(m, ProveCalls(m.portal, root, []), receipt, lg, wdHash) == Select(m, ProveCalls(m.portal, root, []), None, lg, wdHash)
    ensures Recover(m, TraceOf(m, Trace(root)), receipt, lg, wdHash) == Recover(m, TraceOf(m, Trace(root)), None, lg, wdHash)
  {
    hide Filter, ProveCalls, LivePaths, Within, At, Live, Proves, ReadCall, HashIn;
    var ps := LivePaths(root, EmitsHash(m, wdHash));
    CandidatesAreCalls(m, root, wdHash);
    LivePathsExact(root, EmitsHash(m, wdHash));
    if |ps| >= 2 {
      assert ps[0] in ps && ps[1] in ps;
      assert Wanted(root, EmitsHash(m, wdHash), ps[0]) && Wanted(root, EmitsHash(m, wdHash), ps[1]);
      EmitsExactly(m, At(root, ps[0]).head, wdHash);
      EmitsExactly(m, At(root, ps[1]).head, wdHash);
      assert LiveProver(m, root, wdHash, ps[0]) && LiveProver(m, root, wdHash, ps[1]);
      BeforeIrreflexive(ps[0]);
    }
  }

  // ---- The ordinal and the reasons, without reference to how -------------------------------------

  /** The portal's own log of the prove event for this hash. */
  ghost predicate IsProveLog(m: Monitor, lg: Log, wdHash: Hash) {
    lg.address == m.portalAddress && exists rest :: lg.topics == [m.provenTopic, wdHash] + rest
  }

  /** Log j of the receipt is the event itself: a prove log of its index, the first one. */
  ghost predicate IsEventAt(m: Monitor, logs: seq<Log>, index: nat, wdHash: Hash, j: int) {
    && 0 <= j < |logs| && IsProveLog(m, logs[j], wdHash) && logs[j].index == index
    && forall i :: 0 <= i < j ==> !(IsProveLog(m, logs[i], wdHash) && logs[i].index == index)
  }

  lemma {:induction false} ProveLogExactly(m: Monitor, lg: Log, wdHash: Hash)
    ensures ProveLogsOf(m, wdHash)(lg) <==> IsProveLog(m, lg, wdHash)
  {
    if ProveLogsOf(m, wdHash)(lg) {
      assert lg.topics == [m.provenTopic, wdHash] + lg.topics[2..];
    }
  }

  /** The prove events of a receipt are exactly its prove logs, for whatever hash. */
  lemma {:induction false} ProveEventsExactly(m: Monitor, receipt: seq<Log>, lg: Log)
    ensures lg in ProveEvents(m, receipt) <==> lg in receipt && exists wdHash :: IsProveLog(m, lg, wdHash)
  {
    FilterMembers(receipt, ProveLogs(m));
    if ProveLogs(m)(lg) {
      ProveLogExactly(m, lg, lg.topics[1]);
    }
  }

  ghost function Kept(logs: seq<Log>, keep: Log -> bool): set<int> { set i | 0 <= i < |logs| && keep(logs[i]) }

  lemma {:induction false} FilterCounts(logs: seq<Log>, keep: Log -> bool)
    ensures |Filter(logs, keep)| == |Kept(logs, keep)|
  {
    if logs != [] {
      var n := |logs| - 1;
      FilterCounts(logs[..n], keep);
      FilterStep(logs, n, keep);
      assert logs[..n + 1] == logs;
      assert Kept(logs, keep) == Kept(logs[..n], keep) + if keep(logs[n]) then {n} else {};
    }
  }

  lemma {:induction false} FoundAt(logs: seq<Log>, keep: Log -> bool, index: nat, j: nat)
    requires j < |logs| && keep(logs[j]) && logs[j].index == index
    requires forall i :: 0 <= i < j ==> !(keep(logs[i]) && logs[i].index == index)
    ensures PositionOf(Filter(logs, keep), index) == Some(|Filter(logs[..j], keep)|)
  {
    hide Filter, PositionOf;
    FilterPosition(logs, j, keep);
    FilterAppend(logs[..j], logs[j..], keep);
    assert logs[..j] + logs[j..] == logs;
    var mine, before := Filter(logs, keep), Filter(logs[..j], keep);
    forall i | 0 <= i < |before| ensures mine[i].index != index {
      assert mine[i] == before[i] && before[i] in before;
      FilterMembers(logs[..j], keep);
    }
  }

  lemma {:induction false} NotFound(logs: seq<Log>, keep: Log -> bool, index: nat)
    requires forall i :: 0 <= i < |logs| && keep(logs[i]) ==> logs[i].index != index
    ensures PositionOf(Filter(logs, keep), index) == None
  {
    FilterMembers(logs, keep);
    var mine := Filter(logs, keep);
    assert forall i :: 0 <= i < |mine| ==> mine[i] in mine;
  }

  /** The ordinal of an event is the number of prove logs for its hash that come before it in the receipt. */
  lemma {:induction false} OrdinalExactly(m: Monitor, logs: seq<Log>, lg: Log, wdHash: Hash, j: int)
    ensures IsEventAt(m, logs, lg.index, wdHash, j) ==>
              Ordinal(m, Some(logs), lg, wdHash) == Some(|set i | 0 <= i < j && IsProveLog(m, logs[i], wdHash)|)
    ensures (forall i :: 0 <= i < |logs| && IsProveLog(m, logs[i], wdHash) ==> logs[i].index != lg.index) ==>
              Ordinal(m, Some(logs), lg, wdHash) == None
  {
    hide IsProveLog, Filter, ProveLogsOf;
    var keep := ProveLogsOf(m, wdHash);
    forall i | 0 <= i < |logs| ensures keep(logs[i]) <==> IsProveLog(m, logs[i], wdHash) {
      ProveLogExactly(m, logs[i], wdHash);
    }
    if IsEventAt(m, logs, lg.index, wdHash, j) {
      FoundAt(logs, keep, lg.index, j);
      FilterCounts(logs[..j], keep);
      assert Kept(logs[..j], keep) == set i | 0 <= i < j && IsProveLog(m, logs[i], wdHash);
    } else if forall i :: 0 <= i < |logs| && IsProveLog(m, logs[i], wdHash) ==> logs[i].index != lg.index {
      NotFound(logs, keep, lg.index);
    }
  }

  /** Some frame of the trace that took effect is a prove call to the portal. */
  ghost predicate HasProveCall(m: Monitor, root: CallFrame) {
    exists p, args :: Within(root, p) && Live(root, p) && CallsProve(m.portal, At(root, p).head, args)
  }

  ghost predicate Usable(m: Monitor, reply: TraceReply) { reply.Trace? && HasProveCall(m, reply.root) }

  lemma {:induction false} UsableExactly(m: Monitor, reply: TraceReply)
    ensures TraceOf(m, reply).Ok? <==> Usable(m, reply)
  {
    hide CallsProve, IsProveCall, Within, Live, At, LivePaths;
    if reply.Trace? {
      var root, want := reply.root, ProveCallsTo(m.portal);
      var ps := LivePaths(root, want);
      assert |ProveCalls(m.portal, root, [])| == |ps|;
      LivePathsExact(root, want);
      if ps != [] {
        assert ps[0] in ps && Wanted(root, want, ps[0]);
        ProveCallExactly(m.portal, At(root, ps[0]).head);
      }
      if p, args :| Within(root, p) && Live(root, p) && CallsProve(m.portal, At(root, p).head, args) {
        ProveCallExactly(m.portal, At(root, p).head);
        assert Wanted(root, want, p) && p in ps;
      }
    }
  }

  ghost predicate Contains(message: string, word: string) {
    exists a, b :: message == a + (word + b)
  }

  lemma {:induction false} MentionsExactly(message: string, word: string)
    ensures Mentions(message, word) <==> Contains(message, word)
  {
    if word <= message {
      assert message == "" + (word + message[|word|..]);
    } else if message != "" {
      MentionsExactly(message[1..], word);
      if a, b :| message[1..] == a + (word + b) {
        assert message == ([message[0]] + a) + (word + b);
      }
      if a, b :| message == a + (word + b) {
        assert a == "" ==> word <= message;
        assert a != "" ==> message[1..] == a[1..] + (word + b);
      }
    }
  }

  /** The first usable answer is used; if there is none, the last one's error. */
  lemma {:induction false} FirstUsableExactly(m: Monitor, replies: seq<TraceReply>, i: nat)
    requires i < |replies| && forall j :: 0 <= j < i ==> !Usable(m, replies[j])
    ensures Usable(m, replies[i]) || i == |replies| - 1 ==> FirstUsable(m, replies) == TraceOf(m, replies[i])
  {
    hide Usable, TraceOf;
    UsableExactly(m, replies[0]);
    if i > 0 {
      FirstUsableExactly(m, replies[1..], i - 1);
    }
  }

  /**
   Why tracing failed: the trace is unavailable exactly if no attempt gave a usable trace and the last one
   ended in an error that does not name the prove method; a trace without prove calls does name it.
  */
  lemma {:induction false} TraceReasonExactly(m: Monitor, replies: seq<TraceReply>, receipt: Option<seq<Log>>, lg: Log, wdHash: Hash)
    requires replies != []
    ensures Recover(m, FirstUsable(m, replies), receipt, lg, wdHash) == Unrecovered(TraceUnavailable) <==>
            && (forall i :: 0 <= i < |replies| ==> !Usable(m, replies[i]))
            && replies[|replies| - 1].TraceError? && !Contains(replies[|replies| - 1].message, "proveWithdrawalTransaction")
  {
    hide Usable, Mentions, Contains, Select, TraceOf, FirstUsable, ProveCalls;
    if i :| 0 <= i < |replies| && Usable(m, replies[i]) {
      var first := LeastUsable(m, replies, i);
      FirstUsableExactly(m, replies, first);
      UsableExactly(m, replies[first]);
    } else {
      var last := replies[|replies| - 1];
      FirstUsableExactly(m, replies, |replies| - 1);
      UsableExactly(m, last);
      FailedTraceSays(m, last);
    }
  }

  lemma {:induction false} FailedTraceSays(m: Monitor, reply: TraceReply)
    requires TraceOf(m, reply).Err?
    ensures Mentions(TraceOf(m, reply).error, PROVE_METHOD_NAME) <==>
            reply.Trace? || Contains(reply.message, "proveWithdrawalTransaction")
  {
    hide Mentions, ProveCalls;
    MentionsExactly(TraceOf(m, reply).error, PROVE_METHOD_NAME);
    if reply.Trace? {
      assert TraceOf(m, reply).error == "no " + (PROVE_METHOD_NAME + " call to portal found in trace");
    }
  }

  lemma {:induction false} LeastUsable(m: Monitor, replies: seq<TraceReply>, i: nat) returns (first: nat)
    requires i < |replies| && Usable(m, replies[i])
    ensures first < |replies| && Usable(m, replies[first]) && forall j :: 0 <= j < first ==> !Usable(m, replies[j])
    decreases i
  {
    hide Usable;
    if j :| 0 <= j < i && Usable(m, replies[j]) {
      first := LeastUsable(m, replies, j);
    } else {
      first := i;
    }
  }
}
