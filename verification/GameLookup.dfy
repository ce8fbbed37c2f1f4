/** Recovering the historical dispute game from a prove call's own subtree. */
module GameLookup {
  import opened Basics
  import opened Hex
  import opened CallTrace

  /** The selector of gameAtIndex(uint256). */
  const GAME_AT_INDEX_SELECTOR: seq<Byte> := [0xbb, 0x8a, 0xa1, 0xfc]

  datatype LookupError = ShortOutput | GameTypeTooWide | ZeroAddress | NoLookupInTrace

  datatype Game = Game(factory: nat, gameType: nat, proxy: nat)

  /** Outcome of searching one subtree: a game, nothing, or a lookup whose output is unusable. */
  datatype Search = Found(game: Game) | Absent | Failed(error: LookupError)

  predicate IsLookup(index: nat, h: Header) {
    var input := FromHex(h.input);
    |input| == 36 && input[..4] == GAME_AT_INDEX_SELECTOR && BigEndian(input[4..]) == index
  }

  function Lookups(index: nat): Header -> bool { h => IsLookup(index, h) }

  /** Reads the game tuple (uint32 type, uint64 timestamp, address proxy) a lookup returned. */
  function DecodeLookup(h: Header): Search {
    var output := FromHex(h.output);
    if |output| < 96 then Failed(ShortOutput)
    else
      var gameTypeWord := BigEndian(output[..32]);
      if gameTypeWord >= TWO_32 then Failed(GameTypeTooWide)
      else
        var factory := AddressOf(FromHex(h.to));
        var proxy := AddressOf(output[64..96]);
        if factory == 0 || proxy == 0 then Failed(ZeroAddress)
        else Found(Game(factory, gameTypeWord % TWO_64 % TWO_32, proxy))
  }

  function FindGameAtIndexCall(f: CallFrame, index: nat): Search
    decreases f, 1
  {
    if f.error != "" then Absent
    else if IsLookup(index, f.head) then DecodeLookup(f.head)
    else FindGameIn(f.calls, 0, index)
  }

  function FindGameIn(cs: seq<CallFrame>, i: nat, index: nat): Search
    requires i <= |cs|
    decreases cs, 0, |cs| - i
  {
    if i == |cs| then Absent
    else
      var r := FindGameAtIndexCall(cs[i], index);
      if r.Absent? then FindGameIn(cs, i + 1, index) else r
  }

  function GameFromProveTrace(proveFrame: CallFrame, index: nat): Result<Game, LookupError> {
    match FindGameIn(proveFrame.calls, 0, index)
    case Found(game) => Ok(game)
    case Failed(error) => Err(error)
    case Absent => Err(NoLookupInTrace)
  }

  // ---- What a lookup is, in so many bytes ------------------------------------------------------

  /** The calldata of gameAtIndex(index), and nothing else. */
  predicate LooksUp(index: nat, h: Header) {
    index < Pow256(32) && FromHex(h.input) == [0xbb, 0x8a, 0xa1, 0xfc] + Word(index, 32)
  }

  /** The frame answered this game: a type of 32 bits, any time, a nonzero proxy; the factory is the frame's own target. */
  ghost predicate Answers(h: Header, game: Game) {
    && game.gameType < TWO_32 && game.factory == AddressOf(FromHex(h.to)) != 0
    && exists timeWord, proxyWord, rest :: IsTuple(FromHex(h.output), game, timeWord, proxyWord, rest)
  }

  ghost predicate IsTuple(output: seq<Byte>, game: Game, timeWord: seq<Byte>, proxyWord: seq<Byte>, rest: seq<Byte>) {
    && |timeWord| == |proxyWord| == 32 && output == Word(game.gameType, 32) + timeWord + proxyWord + rest
    && game.proxy == AddressOf(proxyWord) != 0
  }

  lemma {:induction false} LookupExactly(index: nat, h: Header)
    ensures IsLookup(index, h) <==> LooksUp(index, h)
  {
    hide FromHex, BigEndian, Word;
    var input := FromHex(h.input);
    if IsLookup(index, h) {
      WordBigEndian(input[4..]);
      assert input == input[..4] + input[4..];
    }
    if LooksUp(index, h) {
      assert input[..4] == GAME_AT_INDEX_SELECTOR && input[4..] == Word(index, 32);
      BigEndianWord(index, 32);
    }
  }

  lemma {:induction false} AnswerUnderstood(h: Header, game: Game, timeWord: seq<Byte>, proxyWord: seq<Byte>, rest: seq<Byte>)
    requires game.gameType < TWO_32 && game.factory == AddressOf(FromHex(h.to)) != 0
    requires IsTuple(FromHex(h.output), game, timeWord, proxyWord, rest)
    ensures DecodeLookup(h) == Found(game)
  {
    hide FromHex, BigEndian, Word, AddressOf;
    var output := FromHex(h.output);
    assert output[..32] == Word(game.gameType, 32) && output[64..96] == proxyWord;
    SmallWord(game.gameType);
  }

  lemma {:induction false} DecodedFacts(h: Header, game: Game)
    requires DecodeLookup(h) == Found(game)
    ensures var output := FromHex(h.output);
            && |output| >= 96 && game.gameType == BigEndian(output[..32]) < TWO_32
            && game.factory == AddressOf(FromHex(h.to)) != 0 && game.proxy == AddressOf(output[64..96]) != 0
  {
    hide FromHex, BigEndian, AddressOf;
  }

  /** The tuple is understood exactly: nothing else is ever taken for a game. */
  lemma {:induction false} AnswerExactly(h: Header, game: Game)
    ensures DecodeLookup(h) == Found(game) <==> Answers(h, game)
  {
    hide FromHex, BigEndian, Word, AddressOf, DecodeLookup, IsTuple;
    var output := FromHex(h.output);
    if DecodeLookup(h) == Found(game) {
      DecodedFacts(h, game);
      TupleOf(output, game);
    }
    if Answers(h, game) {
      var timeWord, proxyWord, rest :| IsTuple(output, game, timeWord, proxyWord, rest);
      AnswerUnderstood(h, game, timeWord, proxyWord, rest);
    }
  }

  lemma {:induction false} TupleOf(output: seq<Byte>, game: Game)
    requires |output| >= 96 && game.gameType == BigEndian(output[..32]) && game.proxy == AddressOf(output[64..96]) != 0
    ensures IsTuple(output, game, output[32..64], output[64..96], output[96..])
  {
    hide BigEndian, Word, AddressOf;
    WordBigEndian(output[..32]);
    ThreeWords(output);
  }

  lemma {:induction false} ThreeWords(b: seq<Byte>)
    requires |b| >= 96
    ensures b == b[..32] + b[32..64] + b[64..96] + b[96..]
  {
    assert b[..64] == b[..32] + b[32..64];
    assert b[..96] == b[..64] + b[64..96];
    assert b == b[..96] + b[96..];
  }

  /** p is a frame strictly below the prove frame that looks the index up, with no error on the way to it. */
  predicate IsLookupFrame(proveFrame: CallFrame, index: nat, p: Path) {
    WantedFrom(proveFrame.calls, 0, h => LooksUp(index, h), p)
  }

  lemma {:induction false} LookupFrameExactly(proveFrame: CallFrame, index: nat, p: Path)
    ensures IsLookupFrame(proveFrame, index, p) <==> WantedFrom(proveFrame.calls, 0, Lookups(index), p)
  {
    if p != [] && p[0] < |proveFrame.calls| && Within(proveFrame.calls[p[0]], p[1..]) {
      LookupExactly(index, At(proveFrame.calls[p[0]], p[1..]).head);
    }
  }

  /** No lookup frame comes before p: among them p is first in pre-order, hence outermost. */
  ghost predicate IsFirstLookup(proveFrame: CallFrame, index: nat, p: Path) {
    && IsLookupFrame(proveFrame, index, p)
    && forall q :: IsLookupFrame(proveFrame, index, q) && q != p ==> Before(p, q)
  }

  lemma {:induction false} SearchIsFirst(f: CallFrame, index: nat)
    ensures var ps := LivePaths(f, Lookups(index));
            if ps == [] then FindGameAtIndexCall(f, index) == Absent
            else
              && Wanted(f, Lookups(index), ps[0])
              && FindGameAtIndexCall(f, index) == DecodeLookup(At(f, ps[0]).head)
    decreases f, 1
  {
    if f.error == "" && !IsLookup(index, f.head) {
      SearchInIsFirst(f.calls, 0, index);
      LivePathsInExact(f.calls, 0, Lookups(index));
      var ps := LivePathsIn(f.calls, 0, Lookups(index));
      assert LivePaths(f, Lookups(index)) == ps;
      if ps != [] { assert ps[0] in ps; }
    }
  }

  lemma {:induction false} SearchInIsFirst(cs: seq<CallFrame>, i: nat, index: nat)
    requires i <= |cs|
    ensures var ps := LivePathsIn(cs, i, Lookups(index));
            if ps == [] then FindGameIn(cs, i, index) == Absent
            else
              && WantedFrom(cs, i, Lookups(index), ps[0])
              && FindGameIn(cs, i, index) == DecodeLookup(At(cs[ps[0][0]], ps[0][1..]).head)
    decreases cs, 0, |cs| - i
  {
    if i < |cs| {
      var want := Lookups(index);
      SearchIsFirst(cs[i], index);
      SearchInIsFirst(cs, i + 1, index);
      var first := LivePaths(cs[i], want);
      if first != [] {
        var ps := LivePathsIn(cs, i, want);
        assert ps[0] == Under(i, first)[0] == [i] + first[0];
        assert ps[0][1..] == first[0];
      }
    }
  }

  /**
   The recovered game is decoded from the first successful gameAtIndex(index) frame in pre-order
   below the prove frame; without one there is no game. That frame is the outermost of its own
   branch: no lookup frame stands above it.
  */
  lemma {:induction false} GameIsFromFirstLookup(proveFrame: CallFrame, index: nat)
    ensures (forall p :: !IsLookupFrame(proveFrame, index, p)) ==>
              GameFromProveTrace(proveFrame, index) == Err(NoLookupInTrace)
    ensures forall p :: IsFirstLookup(proveFrame, index, p) ==>
              GameFromProveTrace(proveFrame, index) ==
              match DecodeLookup(At(proveFrame, p).head) {
                case Found(game) => Ok(game)
                case Failed(error) => Err(error)
                case Absent => Err(NoLookupInTrace)
              }
    ensures (exists p :: IsLookupFrame(proveFrame, index, p)) ==> exists p :: IsFirstLookup(proveFrame, index, p)
    ensures forall p, q :: IsFirstLookup(proveFrame, index, p) && IsLookupFrame(proveFrame, index, q) ==> !(q < p)
  {
    var want := Lookups(index);
    var ps := LivePathsIn(proveFrame.calls, 0, want);
    LivePathsInExact(proveFrame.calls, 0, want);
    SearchInIsFirst(proveFrame.calls, 0, index);
    forall p ensures IsLookupFrame(proveFrame, index, p) <==> p in ps {
      LookupFrameExactly(proveFrame, index, p);
    }
    if ps != [] {
      assert ps[0] in ps;
      forall q | IsLookupFrame(proveFrame, index, q) && q != ps[0] ensures Before(ps[0], q) {
        assert q in ps;
      }
      assert IsFirstLookup(proveFrame, index, ps[0]);
      forall p | IsFirstLookup(proveFrame, index, p) ensures p == ps[0] {
        if p != ps[0] { BeforeAsymmetric(p, ps[0]); }
      }
    } else {
      forall p ensures !IsLookupFrame(proveFrame, index, p) {
        assert p !in ps;
      }
    }
    forall p, q | IsFirstLookup(proveFrame, index, p) && IsLookupFrame(proveFrame, index, q) && q < p
      ensures false
    {
      PrefixIsBefore(q, p);
      BeforeAsymmetric(q, p);
    }
  }

  /** The game of a prove call: the answer of the first frame below it, in pre-order, that looks the index up. */
  ghost predicate GameOfCall(proveFrame: CallFrame, index: nat, game: Game) {
    exists p :: IsFirstLookup(proveFrame, index, p) && Answers(At(proveFrame, p).head, game)
  }

  /** The recovered game is exactly that game. */
  lemma {:induction false} GameExactly(proveFrame: CallFrame, index: nat, game: Game)
    ensures GameFromProveTrace(proveFrame, index) == Ok(game) <==> GameOfCall(proveFrame, index, game)
  {
    hide LooksUp, Answers, DecodeLookup, GameFromProveTrace;
    GameIsFromFirstLookup(proveFrame, index);
    forall p | IsFirstLookup(proveFrame, index, p)
      ensures GameFromProveTrace(proveFrame, index) == Ok(game) <==> Answers(At(proveFrame, p).head, game)
    {
      AnswerExactly(At(proveFrame, p).head, game);
    }
  }

  /** What happened below a reverted frame cannot change the recovered game. */
  lemma {:induction false} RevertedFramesDoNotChangeGame(f: CallFrame, g: CallFrame, index: nat)
    requires SameEffects(f.calls, g.calls)
    ensures GameFromProveTrace(f, index) == GameFromProveTrace(g, index)
  {
    var want := Lookups(index);
    SameEffectsSamePaths(f.calls, g.calls, 0, want);
    SearchInIsFirst(f.calls, 0, index);
    SearchInIsFirst(g.calls, 0, index);
    var ps := LivePathsIn(f.calls, 0, want);
    if ps != [] {
      SameEffectAt(f.calls[ps[0][0]], g.calls[ps[0][0]], ps[0][1..]);
    }
  }

  // ---- The encoding the factory uses -------------------------------------------------------

  /** The tuple gameAtIndex answers, as three 32-byte words. */
  function EncodeGame(gameType: nat, timestamp: nat, proxy: nat): seq<Byte> {
    Word(gameType, 32) + Word(timestamp, 32) + Word(proxy, 32)
  }

  /** A successful static call gameAtIndex(index) on `factory` answering (gameType, timestamp, proxy). */
  function LookupHeader(index: nat, factory: nat, gameType: nat, timestamp: nat, proxy: nat): Header {
    Header("STATICCALL", ToHex(Word(factory, 20)), ToHex(GAME_AT_INDEX_SELECTOR + Word(index, 32)),
           ToHex(EncodeGame(gameType, timestamp, proxy)))
  }

  lemma {:induction false} LookupInput(index: nat, asked: nat, h: Header)
    requires index < Pow256(32) && h.input == ToHex(GAME_AT_INDEX_SELECTOR + Word(index, 32))
    ensures IsLookup(asked, h) <==> asked == index
  {
    var input := GAME_AT_INDEX_SELECTOR + Word(index, 32);
    FromHexToHex(input);
    assert input[..4] == GAME_AT_INDEX_SELECTOR;
    assert input[4..] == Word(index, 32);
    BigEndianWord(index, 32);
  }

  lemma {:induction false} SmallWord(n: nat)
    requires n < TWO_32
    ensures BigEndian(Word(n, 32)) == n
  {
    Pow256Facts();
    BigEndianWord(n, 32);
  }

  lemma {:induction false} DecodeWords(h: Header, typeWord: seq<Byte>, timeWord: seq<Byte>, proxyWord: seq<Byte>)
    requires |typeWord| == |timeWord| == |proxyWord| == 32
    requires FromHex(h.output) == typeWord + timeWord + proxyWord
    requires BigEndian(typeWord) < TWO_32 && AddressOf(FromHex(h.to)) != 0 && AddressOf(proxyWord) != 0
    ensures DecodeLookup(h) == Found(Game(AddressOf(FromHex(h.to)), BigEndian(typeWord), AddressOf(proxyWord)))
  {
    var output := FromHex(h.output);
    assert output[..32] == typeWord && output[64..96] == proxyWord;
  }

  lemma {:induction false} LookupOutput(h: Header, factory: nat, gameType: nat, timestamp: nat, proxy: nat)
    requires 0 < factory < Pow256(20) && 0 < proxy < Pow256(20) && gameType < TWO_32
    requires h.to == ToHex(Word(factory, 20)) && h.output == ToHex(EncodeGame(gameType, timestamp, proxy))
    ensures DecodeLookup(h) == Found(Game(factory, gameType, proxy))
  {
    FromHexToHex(EncodeGame(gameType, timestamp, proxy));
    FromHexToHex(Word(factory, 20));
    SmallWord(gameType);
    AddressOfWord(factory, 20);
    AddressOfWord(proxy, 32);
    DecodeWords(h, Word(gameType, 32), Word(timestamp, 32), Word(proxy, 32));
  }

  /** A frame that answered in the ABI encoding answered this game and no other. */
  lemma {:induction false} EncodedAnswer(h: Header, factory: nat, gameType: nat, timestamp: nat, proxy: nat, game: Game)
    requires 0 < factory < Pow256(20) && 0 < proxy < Pow256(20) && gameType < TWO_32
    requires h.to == ToHex(Word(factory, 20)) && h.output == ToHex(EncodeGame(gameType, timestamp, proxy))
    ensures Answers(h, game) <==> game == Game(factory, gameType, proxy)
  {
    hide DecodeLookup, Answers;
    LookupOutput(h, factory, gameType, timestamp, proxy);
    AnswerExactly(h, game);
  }

  /**
   The lookup inverts the ABI encoding: for a nonzero factory and proxy and any 32-bit type the
   frame found for its own index yields exactly that factory, type and proxy (the narrowing to
   uint32 loses nothing), and the frame is not mistaken for a lookup of another index.
  */
  lemma {:induction false} LookupRoundTrip(index: nat, asked: nat, factory: nat, gameType: nat,
                                           timestamp: nat, proxy: nat, calls: seq<CallFrame>)
    requires index < Pow256(32)
    requires 0 < factory < Pow256(20) && 0 < proxy < Pow256(20) && gameType < TWO_32
    ensures var f := CallFrame(LookupHeader(index, factory, gameType, timestamp, proxy), "", calls);
            FindGameAtIndexCall(f, asked) ==
            if asked == index then Found(Game(factory, gameType, proxy)) else FindGameIn(calls, 0, asked)
  {
    var h := LookupHeader(index, factory, gameType, timestamp, proxy);
    LookupInput(index, asked, h);
    LookupOutput(h, factory, gameType, timestamp, proxy);
  }
}
