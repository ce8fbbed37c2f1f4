/** Re-verifying a recovered proof, and the verdict of one event. */
module Assessment {
  import opened Basics
  import opened Hex
  import opened CallTrace
  import opened GameLookup
  import opened Pairing
  import opened ProofRecovery

  datatype Verdict = Valid | Invalid(reason: Reason) | Unresolved(reason: Reason)

  /** Answers of the L1 contracts to the reads of one assessment. */
  datatype Contracts = Contracts(
    rootClaim: nat -> Option<Hash>,
    rootClaimByChainId: (nat, nat) -> Option<Hash>,
    l2ChainId: Option<nat>)

  const SENTINEL: seq<Byte> := [0x01]

  predicate IsSuperGame(gameType: nat) { gameType in {4, 5, 7, 9} }

  function GameRootClaim(c: Contracts, game: Game): Option<Hash> {
    if IsSuperGame(game.gameType) then
      match c.l2ChainId
      case None => None
      case Some(chainId) => c.rootClaimByChainId(game.proxy, chainId)
    else c.rootClaim(game.proxy)
  }

  /** The proof database: every submitted trie node under its own hash. */
  function ProofDB(lib: Library, nodes: seq<seq<Byte>>): (db: map<Hash, seq<Byte>>)
    ensures db.Keys == set n | n in nodes :: lib.keccak(n)
    ensures forall k :: k in db ==> db[k] in nodes && lib.keccak(db[k]) == k
  {
    if nodes == [] then map[]
    else
      var last := nodes[|nodes| - 1];
      assert nodes == nodes[..|nodes| - 1] + [last];
      ProofDB(lib, nodes[..|nodes| - 1])[lib.keccak(last) := last]
  }

  /** sentMessages[wdHash] is stored under keccak of its slot; the mapping is at slot 0. */
  function StorageKey(lib: Library, wdHash: Hash): Hash {
    lib.keccak(lib.keccak(wdHash + seq(32, _ => 0)))
  }

  function VerifyProof(lib: Library, wdHash: Hash, rootClaim: Hash, proof: DecodedProof): Option<Reason> {
    var orp := proof.outputRootProof;
    if lib.keccak(orp.version + orp.stateRoot + orp.storageRoot + orp.blockhash) != rootClaim then
      Some(BadOutputRootBinding)
    else if lib.trieValue(orp.storageRoot, StorageKey(lib, wdHash), ProofDB(lib, proof.withdrawalProof)) != Some(SENTINEL) then
      Some(BadWithdrawalProof)
    else None
  }

  /** Without hash collisions among the nodes, the verdict depends on which nodes are given, not on order or repetition. */
  lemma {:induction false} NodeOrderIsIrrelevant(lib: Library, wdHash: Hash, rootClaim: Hash, a: DecodedProof, b: DecodedProof)
    requires a.outputRootProof == b.outputRootProof
    requires forall n :: n in a.withdrawalProof <==> n in b.withdrawalProof
    requires forall m, n :: m in a.withdrawalProof && n in a.withdrawalProof && lib.keccak(m) == lib.keccak(n) ==> m == n
    ensures VerifyProof(lib, wdHash, rootClaim, a) == VerifyProof(lib, wdHash, rootClaim, b)
  {
    var da, db := ProofDB(lib, a.withdrawalProof), ProofDB(lib, b.withdrawalProof);
    assert da == db;
  }

  /** The judgement on a proof whose game is known. */
  function Judge(lib: Library, c: Contracts, wdHash: Hash, recovery: Recovery): Verdict {
    match recovery
    case Unrecovered(reason) => Unresolved(reason)
    case Recovered(proof, game) =>
      match GameRootClaim(c, game)
      case None => Unresolved(GameReadError)
      case Some(rootClaim) =>
        match VerifyProof(lib, wdHash, rootClaim, proof)
        case Some(reason) => Invalid(reason)
        case None => Valid
  }

  function AssessmentOf(m: Monitor, c: Contracts, traced: Result<Traced, string>, receipt: Option<seq<Log>>, lg: Log, wdHash: Hash): Verdict
    requires traced.Ok? ==> PointsIntoTrace(traced.value)
  {
    Judge(m.lib, c, wdHash, Recover(m, traced, receipt, lg, wdHash))
  }

  method Assess(m: Monitor, c: Contracts, replies: seq<TraceReply>, receipt: Option<seq<Log>>, lg: Log, wdHash: Hash) returns (v: Verdict)
    requires |replies| == 3
    ensures v == AssessmentOf(m, c, FirstUsable(m, replies), receipt, lg, wdHash)
  {
    var recovered := RecoverProof(m, replies, receipt, lg, wdHash);
    if recovered.Unrecovered? {
      return Unresolved(recovered.reason);
    }
    var rootClaim := GameRootClaim(c, recovered.game);
    if rootClaim.None? {
      return Unresolved(GameReadError);
    }
    var reason := VerifyProof(m.lib, wdHash, rootClaim.value, recovered.proof);
    if reason.Some? {
      return Invalid(reason.value);
    }
    return Valid;
  }

  /** The judgement on one traced prove call, from its own calldata and its own subtree. */
  function JudgeCall(m: Monitor, c: Contracts, frame: CallFrame, wdHash: Hash): Verdict
    requires ProofIn(m, FromHex(frame.head.input)).Some?
  {
    Judge(m.lib, c, wdHash, ReadCall(m, frame, ProofIn(m, FromHex(frame.head.input)).value))
  }

  /**
   The verdict on an event is the verdict on the very call that emitted it: its own arguments
   against the root claim of the game that call looked up. Other prove calls of the transaction,
   reverted decoys and undecodable candidates have no influence.
  */
  lemma {:induction false} VerdictConcernsOwnCall(m: Monitor, c: Contracts, root: CallFrame, receipt: seq<Log>, timing: Timing, k: nat)
    requires Records(m, receipt, root, timing)
    requires k < |ProveEvents(m, receipt)|
    requires NoNesting(root, EmitsHash(m, ProveEvents(m, receipt)[k].topics[1]))
    ensures var lg, frame := ProveEvents(m, receipt)[k], Emitted(root, [], EmitsAny(m), timing)[k];
            && Within(root, frame)
            && ProofIn(m, FromHex(At(root, frame).head.input)).Some?
            && AssessmentOf(m, c, TraceOf(m, Trace(root)), Some(receipt), lg, lg.topics[1])
            == JudgeCall(m, c, At(root, frame), lg.topics[1])
  {
    PairingIsExact(m, root, receipt, timing, k);
    var lg := ProveEvents(m, receipt)[k];
    SelectedIsCandidate(m, ProveCalls(m.portal, root, []), Some(receipt), lg, lg.topics[1]);
  }

  // ---- What makes a proof good or bad, without reference to how it is checked ---------------------

  /** The node has this hash, and it is the last one that has. */
  ghost predicate LastUnder(lib: Library, nodes: seq<seq<Byte>>, k: Hash, node: seq<Byte>) {
    exists i :: 0 <= i < |nodes| && nodes[i] == node && lib.keccak(node) == k && forall j :: i < j < |nodes| ==> lib.keccak(nodes[j]) != k
  }

  /** The map holds exactly these nodes, each under its own hash; of nodes that collide, the last. */
  ghost predicate HoldsNodes(lib: Library, db: map<Hash, seq<Byte>>, nodes: seq<seq<Byte>>) {
    (forall node :: node in nodes ==> lib.keccak(node) in db) && forall k :: k in db ==> LastUnder(lib, nodes, k, db[k])
  }

  lemma {:induction false} ZeroWord(width: nat)
    ensures Word(0, width) == seq(width, _ => 0)
  {
    if width > 0 {
      ZeroWord(width - 1);
    }
  }

  /** The four words of the output root hash to the claim. */
  ghost predicate BoundTo(lib: Library, d: DecodedProof, claim: Hash) {
    var orp := d.outputRootProof;
    lib.keccak(orp.version + orp.stateRoot + orp.storageRoot + orp.blockhash) == claim
  }

  /** The submitted nodes show that the storage holds 1 for this withdrawal. */
  ghost predicate Included(lib: Library, wdHash: Hash, d: DecodedProof) {
    exists db :: HoldsNodes(lib, db, d.withdrawalProof)
              && lib.trieValue(d.outputRootProof.storageRoot, lib.keccak(lib.keccak(wdHash + Word(0, 32))), db) == Some([0x01])
  }

  /** The game's claim: that of this chain for the super games, the game's own for all others. */
  ghost predicate ClaimIs(c: Contracts, game: Game, claim: Hash) {
    if game.gameType == 4 || game.gameType == 5 || game.gameType == 7 || game.gameType == 9
    then c.l2ChainId.Some? && c.rootClaimByChainId(game.proxy, c.l2ChainId.value) == Some(claim)
    else c.rootClaim(game.proxy) == Some(claim)
  }

  /** The call proves the hash by d, against a game that claims this root. */
  ghost predicate Against(m: Monitor, c: Contracts, frame: CallFrame, wdHash: Hash, d: DecodedProof, claim: Hash) {
    exists game :: ProvenAgainst(m, frame, wdHash, d, game) && ClaimIs(c, game, claim)
  }

  ghost predicate GoodProof(m: Monitor, c: Contracts, frame: CallFrame, wdHash: Hash) {
    exists d, claim :: Against(m, c, frame, wdHash, d, claim) && BoundTo(m.lib, d, claim) && Included(m.lib, wdHash, d)
  }

  /** The output root is not the one the game claims. */
  ghost predicate WrongRoot(m: Monitor, c: Contracts, frame: CallFrame, wdHash: Hash) {
    exists d, claim :: Against(m, c, frame, wdHash, d, claim) && !BoundTo(m.lib, d, claim)
  }

  /** The output root is the claimed one, but the withdrawal is not shown to be in its storage. */
  ghost predicate NotIncluded(m: Monitor, c: Contracts, frame: CallFrame, wdHash: Hash) {
    exists d, claim :: Against(m, c, frame, wdHash, d, claim) && BoundTo(m.lib, d, claim) && !Included(m.lib, wdHash, d)
  }

  lemma {:induction false} LastUnderGrows(lib: Library, nodes: seq<seq<Byte>>, k: Hash, node: seq<Byte>, last: seq<Byte>)
    ensures LastUnder(lib, nodes, k, node) && k != lib.keccak(last) ==> LastUnder(lib, nodes + [last], k, node)
    ensures LastUnder(lib, nodes + [last], lib.keccak(last), last)
  {
    var more := nodes + [last];
    assert more[|nodes|] == last;
    if LastUnder(lib, nodes, k, node) && k != lib.keccak(last) {
      var i :| 0 <= i < |nodes| && nodes[i] == node && lib.keccak(node) == k && forall j :: i < j < |nodes| ==> lib.keccak(nodes[j]) != k;
      assert more[i] == node && forall j :: i < j < |nodes| ==> more[j] == nodes[j];
    }
  }

  lemma {:induction false} OneLast(lib: Library, nodes: seq<seq<Byte>>, k: Hash, a: seq<Byte>, b: seq<Byte>)
    requires LastUnder(lib, nodes, k, a) && LastUnder(lib, nodes, k, b)
    ensures a == b
  {
  }

  lemma {:induction false} ProofDBHolds(lib: Library, nodes: seq<seq<Byte>>)
    ensures HoldsNodes(lib, ProofDB(lib, nodes), nodes)
  {
    hide LastUnder;
    if nodes != [] {
      var before, last := nodes[..|nodes| - 1], nodes[|nodes| - 1];
      assert nodes == before + [last];
      ProofDBHolds(lib, before);
      forall k | k in ProofDB(lib, nodes) ensures LastUnder(lib, nodes, k, ProofDB(lib, nodes)[k]) {
        LastUnderGrows(lib, before, k, ProofDB(lib, nodes)[k], last);
      }
    }
  }

  /** There is exactly one such map, and the check uses it. */
  lemma {:induction false} ProofDBExactly(lib: Library, db: map<Hash, seq<Byte>>, nodes: seq<seq<Byte>>)
    ensures HoldsNodes(lib, db, nodes) <==> db == ProofDB(lib, nodes)
  {
    hide ProofDB;
    var own := ProofDB(lib, nodes);
    ProofDBHolds(lib, nodes);
    if HoldsNodes(lib, db, nodes) {
      forall k ensures k in db <==> k in own {}
      forall k | k in db ensures db[k] == own[k] {
        OneLast(lib, nodes, k, db[k], own[k]);
      }
    }
  }

  lemma {:induction false} VerifiedExactly(lib: Library, wdHash: Hash, claim: Hash, d: DecodedProof)
    ensures VerifyProof(lib, wdHash, claim, d) == None <==> BoundTo(lib, d, claim) && Included(lib, wdHash, d)
    ensures VerifyProof(lib, wdHash, claim, d) == Some(BadOutputRootBinding) <==> !BoundTo(lib, d, claim)
    ensures VerifyProof(lib, wdHash, claim, d) == Some(BadWithdrawalProof) <==> BoundTo(lib, d, claim) && !Included(lib, wdHash, d)
  {
    hide ProofDB, HoldsNodes;
    ZeroWord(32);
    forall db ensures HoldsNodes(lib, db, d.withdrawalProof) <==> db == ProofDB(lib, d.withdrawalProof) {
      ProofDBExactly(lib, db, d.withdrawalProof);
    }
  }

  lemma {:induction false} ClaimExactly(c: Contracts, game: Game, claim: Hash)
    ensures GameRootClaim(c, game) == Some(claim) <==> ClaimIs(c, game, claim)
  {
  }

  /** What the call is judged against is what the program recovers and reads. */
  lemma {:induction false} AgainstExactly(m: Monitor, c: Contracts, frame: CallFrame, wdHash: Hash, own: DecodedProof)
    requires Proves(m, frame.head, wdHash, own)
    ensures forall d, claim :: Against(m, c, frame, wdHash, d, claim) <==>
              && d == own && GameFromProveTrace(frame, own.disputeGameIndex).Ok?
              && GameRootClaim(c, GameFromProveTrace(frame, own.disputeGameIndex).value) == Some(claim)
  {
    hide FromHex, GameRootClaim, GameFromProveTrace, GameOfCall, Proves, ClaimIs;
    EmitsExactly(m, frame.head, wdHash);
    forall d, game ensures ProvenAgainst(m, frame, wdHash, d, game) <==>
                             d == own && GameFromProveTrace(frame, own.disputeGameIndex) == Ok(game) {
      GameExactly(frame, d.disputeGameIndex, game);
    }
    forall game, claim ensures GameRootClaim(c, game) == Some(claim) <==> ClaimIs(c, game, claim) {
      ClaimExactly(c, game, claim);
    }
    forall d, claim ensures Against(m, c, frame, wdHash, d, claim) <==>
                              && d == own && GameFromProveTrace(frame, own.disputeGameIndex).Ok?
                              && GameRootClaim(c, GameFromProveTrace(frame, own.disputeGameIndex).value) == Some(claim)
    {
      if d == own && GameFromProveTrace(frame, own.disputeGameIndex).Ok? {
        assert ProvenAgainst(m, frame, wdHash, d, GameFromProveTrace(frame, own.disputeGameIndex).value);
      }
    }
  }

  /** The judgement on a call that proves this hash, exactly; without a game or its claim it stays open. */
  lemma {:induction false} JudgedExactly(m: Monitor, c: Contracts, frame: CallFrame, wdHash: Hash)
    requires EmitsHash(m, wdHash)(frame.head)
    ensures ProofIn(m, FromHex(frame.head.input)).Some?
    ensures var v := JudgeCall(m, c, frame, wdHash);
            && (v == Valid <==> GoodProof(m, c, frame, wdHash))
            && (v == Invalid(BadOutputRootBinding) <==> WrongRoot(m, c, frame, wdHash))
            && (v == Invalid(BadWithdrawalProof) <==> NotIncluded(m, c, frame, wdHash))
            && (v.Invalid? <==> WrongRoot(m, c, frame, wdHash) || NotIncluded(m, c, frame, wdHash))
            && (v == Unresolved(GameReadError) <==> forall d, claim :: !Against(m, c, frame, wdHash, d, claim))
  {
    hide FromHex, VerifyProof, GameRootClaim, GameFromProveTrace, Proves, BoundTo, Included, Against;
    EmitsExactly(m, frame.head, wdHash);
    var own :| Proves(m, frame.head, wdHash, own);
    AgainstExactly(m, c, frame, wdHash, own);
    var game := GameFromProveTrace(frame, own.disputeGameIndex);
    if game.Ok? && GameRootClaim(c, game.value).Some? {
      var claim := GameRootClaim(c, game.value).value;
      VerifiedExactly(m.lib, wdHash, claim, own);
      assert Against(m, c, frame, wdHash, own, claim);
    }
  }

  /**
   The verdict on the k-th prove log, exactly, in terms of the chain alone: valid, invalid for its
   root, or invalid for its inclusion, by the arguments of the call that emitted it and the game that
   call looked up.
  */
  lemma {:induction false} AssessedExactly(m: Monitor, c: Contracts, root: CallFrame, receipt: seq<Log>, timing: Timing, k: nat)
    requires Records(m, receipt, root, timing)
    requires k < |ProveEvents(m, receipt)|
    requires NoNesting(root, EmitsHash(m, ProveEvents(m, receipt)[k].topics[1]))
    ensures var lg, path := ProveEvents(m, receipt)[k], Emitted(root, [], EmitsAny(m), timing)[k];
            var v := AssessmentOf(m, c, TraceOf(m, Trace(root)), Some(receipt), lg, lg.topics[1]);
            && Within(root, path)
            && (v == Valid <==> GoodProof(m, c, At(root, path), lg.topics[1]))
            && (v == Invalid(BadOutputRootBinding) <==> WrongRoot(m, c, At(root, path), lg.topics[1]))
            && (v == Invalid(BadWithdrawalProof) <==> NotIncluded(m, c, At(root, path), lg.topics[1]))
  {
    hide Records, NoNesting, Emitted, EmitsHash, AssessmentOf, JudgeCall, GoodProof, WrongRoot, NotIncluded;
    VerdictConcernsOwnCall(m, c, root, receipt, timing, k);
    OwnCallEmits(m, root, receipt, timing, k);
    var lg, path := ProveEvents(m, receipt)[k], Emitted(root, [], EmitsAny(m), timing)[k];
    JudgedExactly(m, c, At(root, path), lg.topics[1]);
  }

  /** Two sets of answers that do not contradict each other; either may lack some. */
  ghost predicate Agree(c: Contracts, d: Contracts) {
    && (forall p :: c.rootClaim(p).Some? && d.rootClaim(p).Some? ==> c.rootClaim(p) == d.rootClaim(p))
    && (forall p, id :: c.rootClaimByChainId(p, id).Some? && d.rootClaimByChainId(p, id).Some? ==>
          c.rootClaimByChainId(p, id) == d.rootClaimByChainId(p, id))
    && (c.l2ChainId.Some? && d.l2ChainId.Some? ==> c.l2ChainId == d.l2ChainId)
  }

  /** However often a call is judged, and whatever is missing in between, it gets at most one terminal verdict. */
  lemma {:induction false} TerminalVerdictIsStable(m: Monitor, c: Contracts, d: Contracts, frame: CallFrame, wdHash: Hash)
    requires ProofIn(m, FromHex(frame.head.input)).Some? && Agree(c, d)
    requires !JudgeCall(m, c, frame, wdHash).Unresolved? && !JudgeCall(m, d, frame, wdHash).Unresolved?
    ensures JudgeCall(m, c, frame, wdHash) == JudgeCall(m, d, frame, wdHash)
  {
    hide FromHex, VerifyProof, GameFromProveTrace;
  }
}
