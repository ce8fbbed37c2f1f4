/**
 Proven-withdrawal events, the game data they share, and their validation
 (op-monitorism/faultproof_withdrawals/validator).
*/
module Enrichment {
  import opened Basics
  import opened Ledger

  /** GameStatus: three values are meaningful, the type admits more. */
  type Status = nat
  const IN_PROGRESS: Status := 0
  const CHALLENGER_WINS: Status := 1
  const DEFENDER_WINS: Status := 2

  /** A game's data; one object may be shared by the events of all withdrawals proven against it. */
  class DisputeGameData {
    const proxy: nat
    const l2BlockNumber: nat
    var status: Status
    var resolvedAt: nat

    constructor (proxy: nat, l2BlockNumber: nat, status: Status, resolvedAt: nat)
      ensures this.proxy == proxy && this.l2BlockNumber == l2BlockNumber
      ensures this.status == status && this.resolvedAt == resolvedAt
    {
      this.proxy, this.l2BlockNumber, this.status, this.resolvedAt := proxy, l2BlockNumber, status, resolvedAt;
    }
  }

  /** What has been found out about an event. */
  datatype Findings = Findings(blacklisted: bool, present: bool, trusted: bool, enriched: bool, preIsthmus: bool)

  const NOTHING_FOUND: Findings := Findings(false, false, false, false, false)

  /** VerifyRootClaimFromHeader: no header, a pre-Isthmus header, or the comparison's result. */
  datatype HeaderCheck = HeaderFailed | HeaderPreIsthmus | HeaderRoot(matches: bool)

  /** What the nodes answer while one event is brought up to date. */
  datatype Answers = Answers(
    status: Option<Status>,
    resolvedAt: Option<nat>,
    blacklisted: Option<bool>,
    l2Head: Option<nat>,
    header: HeaderCheck,
    present: Option<bool>,
    l2HeadAfter: Option<nat>)

  class EnrichedEvent {
    const txHash: TxHash
    const withdrawalHash: nat
    const proofSubmitter: nat
    const game: DisputeGameData
    var blacklisted: bool
    var present: bool
    var trusted: bool
    var enriched: bool
    var preIsthmus: bool

    constructor (txHash: TxHash, withdrawalHash: nat, proofSubmitter: nat, game: DisputeGameData)
      ensures this.txHash == txHash && this.withdrawalHash == withdrawalHash
      ensures this.proofSubmitter == proofSubmitter && this.game == game && Found() == NOTHING_FOUND
    {
      this.txHash, this.withdrawalHash, this.proofSubmitter, this.game := txHash, withdrawalHash, proofSubmitter, game;
      blacklisted, present, trusted, enriched, preIsthmus := false, false, false, false, false;
    }

    function Found(): Findings
      reads this
    {
      Findings(blacklisted, present, trusted, enriched, preIsthmus)
    }
  }

  /** RefreshState: the status is stored even if the resolution time then cannot be read. */
  method RefreshState(game: DisputeGameData, a: Answers) returns (ok: bool)
    modifies game
    ensures ok == (a.status.Some? && a.resolvedAt.Some?)
    ensures game.status == if a.status.Some? then a.status.value else old(game.status)
    ensures game.resolvedAt == if ok then a.resolvedAt.value else old(game.resolvedAt)
  {
    if a.status.None? {
      return false;
    }
    game.status := a.status.value;
    if a.resolvedAt.None? {
      return false;
    }
    game.resolvedAt := a.resolvedAt.value;
    return true;
  }

  /** The blacklist is asked unless the event is already known not to be blacklisted. */
  predicate AsksBlacklist(f: Findings) { f.blacklisted || !f.enriched }

  /** The findings after one update of an event whose game refers to this L2 block, and its success. */
  function Enrich(f: Findings, l2BlockNumber: nat, a: Answers): (Findings, bool) {
    if AsksBlacklist(f) && a.blacklisted.None? then (f, false)
    else
      var g := if AsksBlacklist(f) then f.(blacklisted := a.blacklisted.value) else f;
      if g.enriched then (g, true)
      else if a.l2Head.None? then (g, false)
      else if a.l2Head.value < l2BlockNumber then (g.(trusted := false, enriched := true), true)
      else match a.header
        case HeaderFailed => (g, false)
        case HeaderPreIsthmus => (g.(preIsthmus := true, trusted := false, present := false, enriched := true), true)
        case HeaderRoot(matches) =>
          if a.present.None? then (g.(trusted := matches), false)
          else (g.(trusted := matches, present := a.present.value, enriched := true), true)
  }

  method UpdateEnrichedWithdrawalEvent(e: EnrichedEvent, a: Answers) returns (ok: bool)
    modifies e, e.game
    ensures old(e.game.status) != IN_PROGRESS ==> e.game.status == old(e.game.status) && e.game.resolvedAt == old(e.game.resolvedAt)
    ensures old(e.game.status) == IN_PROGRESS && a.status.Some? ==> e.game.status == a.status.value
    ensures old(e.game.status) == IN_PROGRESS && a.status.None? ==> e.game.status == IN_PROGRESS
    ensures ok == (Enrich(old(e.Found()), e.game.l2BlockNumber, a).1
                   && (old(e.game.status) == IN_PROGRESS ==> a.status.Some? && a.resolvedAt.Some?))
    ensures e.Found() == if old(e.game.status) == IN_PROGRESS && (a.status.None? || a.resolvedAt.None?) then old(e.Found())
                         else Enrich(old(e.Found()), e.game.l2BlockNumber, a).0
  {
    if e.game.status == IN_PROGRESS {
      ok := RefreshState(e.game, a);
      if !ok {
        return;
      }
    }
    if e.blacklisted || !e.enriched {
      if a.blacklisted.None? {
        return false;
      }
      e.blacklisted := a.blacklisted.value;
    }
    if !e.enriched {
      if a.l2Head.None? {
        return false;
      }
      if a.l2Head.value >= e.game.l2BlockNumber {
        match a.header {
          case HeaderFailed => return false;
          case HeaderPreIsthmus =>
            e.preIsthmus := true;
            e.trusted := false;
            e.present := false;
          case HeaderRoot(matches) =>
            e.trusted := matches;
            if a.present.None? {
              return false;
            }
            e.present := a.present.value;
        }
      } else {
        e.trusted := false;
      }
    }
    e.enriched := true;
    return true;
  }

  /** The class of an event with these findings and this game status; None where validation fails. */
  function Classify(f: Findings, status: Status): Option<Class> {
    if f.preIsthmus then Some(PreIsthmus)
    else if !f.enriched then None
    else if f.trusted && f.present then Some(Validated)
    else if f.blacklisted then Some(Suspicious)
    else if status == CHALLENGER_WINS then Some(Suspicious)
    else if status == DEFENDER_WINS then Some(DefenderWins)
    else if status == IN_PROGRESS then Some(InProgress)
    else Some(UnknownStatus)
  }

  /** The findings of an event under watch: judged, not valid, not blacklisted. */
  predicate Watched(f: Findings) {
    f.enriched && !f.preIsthmus && !(f.trusted && f.present) && !f.blacklisted
  }

  /** Only such events come to be watched. */
  lemma {:induction false} InProgressIsWatched(f: Findings, status: Status)
    ensures Classify(f, status) == Some(InProgress) ==> Watched(f) && status == IN_PROGRESS
  {
  }

  /**
   A watched event's findings never change again, whatever the nodes answer: it can only move with
   its game's status and is never validated.
  */
  lemma {:induction false} WatchedIsFinal(f: Findings, l2BlockNumber: nat, a: Answers, status: Status)
    requires Watched(f)
    ensures Enrich(f, l2BlockNumber, a) == (f, true)
    ensures Classify(f, status).Some? && Classify(f, status).value in {DefenderWins, Suspicious, InProgress, UnknownStatus}
    ensures status <= DEFENDER_WINS ==>
              (Classify(f, status) == Some(InProgress) <==> status == IN_PROGRESS) && Classify(f, status) != Some(UnknownStatus)
  {
  }

  /** An error-free update always leaves a class; a failed one never marks the event as judged. */
  lemma {:induction false} EnrichDecides(f: Findings, l2BlockNumber: nat, a: Answers, status: Status)
    ensures Enrich(f, l2BlockNumber, a).1 ==>
              Enrich(f, l2BlockNumber, a).0.enriched && Classify(Enrich(f, l2BlockNumber, a).0, status).Some?
    ensures !Enrich(f, l2BlockNumber, a).1 ==> Enrich(f, l2BlockNumber, a).0.enriched == f.enriched
  {
  }

  /**
   A freshly judged event is validated exactly if the L2 node is at or past the game's block, that
   block's header reproduces the root claim and the withdrawal is present at the L2 head.
  */
  lemma {:induction false} ValidatedExactly(l2BlockNumber: nat, a: Answers, status: Status)
    ensures var (f, ok) := Enrich(NOTHING_FOUND, l2BlockNumber, a);
            (ok && Classify(f, status) == Some(Validated)) <==>
            && a.blacklisted.Some? && a.l2Head.Some? && a.l2Head.value >= l2BlockNumber
            && a.header == HeaderRoot(true) && a.present == Some(true)
  {
  }

  /** What an update without error finds out about an event that was not judged yet, mark by mark. */
  lemma {:induction false} FoundExactly(f: Findings, l2BlockNumber: nat, a: Answers)
    requires !f.enriched && !f.preIsthmus
    ensures var (g, ok) := Enrich(f, l2BlockNumber, a);
            ok ==>
              var reached := a.l2Head.Some? && a.l2Head.value >= l2BlockNumber;
              && g.enriched
              && (g.blacklisted <==> a.blacklisted == Some(true))
              && (g.preIsthmus <==> reached && a.header == HeaderPreIsthmus)
              && (g.trusted <==> reached && a.header == HeaderRoot(true))
              && (g.present <==> if reached then a.header.HeaderRoot? && a.present == Some(true) else f.present)
  {
  }

  /** The nodes answer every question about a genuine withdrawal truly; the L2 node may lag behind. */
  predicate TrueAnswers(a: Answers) {
    a.blacklisted == Some(false) && a.l2Head.Some? && a.header == HeaderRoot(true) && a.present == Some(true)
  }

  /**
   A genuine withdrawal that is first judged while the L2 node lags behind its game's block is never
   validated: it is validated exactly if the node was there, and otherwise keeps its findings through
   every later update, is watched, and is booked as an attack once the defender has rightly won.
  */
  lemma {:induction false} LaggingNodeCondemns(l2BlockNumber: nat, a: Answers, later: Answers, status: Status)
    requires TrueAnswers(a)
    ensures var (f, ok) := Enrich(NOTHING_FOUND, l2BlockNumber, a);
            && ok
            && (Classify(f, status) == Some(Validated) <==> a.l2Head.value >= l2BlockNumber)
            && (a.l2Head.value < l2BlockNumber ==>
                  && Enrich(f, l2BlockNumber, later) == (f, true)
                  && Classify(f, IN_PROGRESS) == Some(InProgress) && Classify(f, DEFENDER_WINS) == Some(DefenderWins))
  {
    var f := Enrich(NOTHING_FOUND, l2BlockNumber, a).0;
    if a.l2Head.value < l2BlockNumber {
      WatchedIsFinal(f, l2BlockNumber, later, status);
    }
  }
}
