/**
 Pairing each prove event of a transaction with the call that emitted it
 (op-monitorism/withdrawals-v2/monitor.go, recoverProof and eventOrdinal).
*/
module Pairing {
  import opened Basics
  import opened CallTrace

  // ---- When a call tree emits its events ---------------------------------------------------

  /**
   Where in its execution a frame emits: after that many of its subcalls. The trace does not
   record it, so every statement below is made for all timings.
  */
  type Timing = Path -> nat

  /** The emitting frames of f, standing at `at`, in the order their events enter the receipt. */
  function Emitted(f: CallFrame, at: Path, emits: Header -> bool, timing: Timing): seq<Path>
    decreases f, 1
  {
    if f.error != "" then []
    else
      var k := if timing(at) <= |f.calls| then timing(at) else |f.calls|;
      EmittedIn(f.calls, 0, k, at, emits, timing)
      + (if emits(f.head) then [[]] else [])
      + EmittedIn(f.calls, k, |f.calls|, at, emits, timing)
  }

  function EmittedIn(cs: seq<CallFrame>, i: nat, k: nat, at: Path, emits: Header -> bool, timing: Timing): seq<Path>
    requires i <= k <= |cs|
    decreases cs, 0, k - i
  {
    if i == k then []
    else Under(i, Emitted(cs[i], at + [i], emits, timing)) + EmittedIn(cs, i + 1, k, at, emits, timing)
  }

  /** No emitting frame stands inside another one. */
  ghost predicate NoNesting(f: CallFrame, emits: Header -> bool) {
    forall p, q :: p in LivePaths(f, emits) && q in LivePaths(f, emits) ==> !(p < q)
  }

  lemma {:induction false} EmittedInSplit(cs: seq<CallFrame>, i: nat, k: nat, n: nat, at: Path, emits: Header -> bool, timing: Timing)
    requires i <= k <= n <= |cs|
    ensures EmittedIn(cs, i, n, at, emits, timing)
         == EmittedIn(cs, i, k, at, emits, timing) + EmittedIn(cs, k, n, at, emits, timing)
    decreases k - i
  {
    if i < k {
      EmittedInSplit(cs, i + 1, k, n, at, emits, timing);
      Assoc(Under(i, Emitted(cs[i], at + [i], emits, timing)),
            EmittedIn(cs, i + 1, k, at, emits, timing), EmittedIn(cs, k, n, at, emits, timing));
    }
  }

  lemma {:induction false} NoNestingBelow(f: CallFrame, i: nat, emits: Header -> bool)
    requires f.error == "" && NoNesting(f, emits) && i < |f.calls|
    ensures NoNesting(f.calls[i], emits)
  {
    LivePathsExact(f, emits);
    LivePathsExact(f.calls[i], emits);
    forall p, q | p in LivePaths(f.calls[i], emits) && q in LivePaths(f.calls[i], emits)
      ensures !(p < q)
    {
      assert ([i] + p)[1..] == p && ([i] + q)[1..] == q;
      assert [i] + p in LivePaths(f, emits) && [i] + q in LivePaths(f, emits);
      assert [i] + p < [i] + q <==> p < q;
    }
  }

  lemma {:induction false} NothingBelowEmitter(f: CallFrame, emits: Header -> bool)
    requires f.error == "" && NoNesting(f, emits) && emits(f.head)
    ensures LivePathsIn(f.calls, 0, emits) == []
  {
    var below := LivePathsIn(f.calls, 0, emits);
    if below != [] {
      LivePathsInExact(f.calls, 0, emits);
      var root, p: Path := [], below[0];
      assert p in below && root < p;
      assert LivePaths(f, emits) == [root] + below;
      assert root in LivePaths(f, emits) && p in LivePaths(f, emits);
    }
  }

  /** Without nesting, events are emitted in the order the walk meets the calls, at any timing. */
  lemma {:induction false} EmissionOrderIsCallOrder(f: CallFrame, at: Path, emits: Header -> bool, timing: Timing)
    requires NoNesting(f, emits)
    ensures Emitted(f, at, emits, timing) == LivePaths(f, emits)
    decreases f, 1
  {
    hide NoNesting, EmittedIn, LivePathsIn;
    if f.error == "" {
      var k := if timing(at) <= |f.calls| then timing(at) else |f.calls|;
      forall i | 0 <= i < |f.calls| ensures NoNesting(f.calls[i], emits) {
        NoNestingBelow(f, i, emits);
      }
      EmissionOrderIn(f.calls, 0, at, emits, timing);
      EmittedInSplit(f.calls, 0, k, |f.calls|, at, emits, timing);
      var a, b := EmittedIn(f.calls, 0, k, at, emits, timing), EmittedIn(f.calls, k, |f.calls|, at, emits, timing);
      assert a + b == LivePathsIn(f.calls, 0, emits);
      if emits(f.head) {
        NothingBelowEmitter(f, emits);
        assert a == [] && b == [];
      } else {
        assert a + [] + b == a + b;
      }
    }
  }

  lemma {:induction false} EmissionOrderIn(cs: seq<CallFrame>, i: nat, at: Path, emits: Header -> bool, timing: Timing)
    requires i <= |cs| && forall j :: 0 <= j < |cs| ==> NoNesting(cs[j], emits)
    ensures EmittedIn(cs, i, |cs|, at, emits, timing) == LivePathsIn(cs, i, emits)
    decreases cs, 0, |cs| - i
  {
    if i < |cs| {
      EmissionOrderIsCallOrder(cs[i], at + [i], emits, timing);
      EmissionOrderIn(cs, i + 1, at, emits, timing);
    }
  }

  lemma {:induction false} EmittedCount(f: CallFrame, at: Path, emits: Header -> bool, timing: Timing)
    ensures |Emitted(f, at, emits, timing)| == |LivePaths(f, emits)|
    decreases f, 1
  {
    if f.error == "" {
      var k := if timing(at) <= |f.calls| then timing(at) else |f.calls|;
      EmittedInCount(f.calls, 0, at, emits, timing);
      EmittedInSplit(f.calls, 0, k, |f.calls|, at, emits, timing);
    }
  }

  lemma {:induction false} EmittedInCount(cs: seq<CallFrame>, i: nat, at: Path, emits: Header -> bool, timing: Timing)
    requires i <= |cs|
    ensures |EmittedIn(cs, i, |cs|, at, emits, timing)| == |LivePathsIn(cs, i, emits)|
    decreases cs, 0, |cs| - i
  {
    if i < |cs| {
      EmittedCount(cs[i], at + [i], emits, timing);
      EmittedInCount(cs, i + 1, at, emits, timing);
    }
  }

  /** Every frame of f emits only when its subcalls are done, as the portal does. */
  ghost predicate EmitsLast(f: CallFrame, at: Path, timing: Timing) {
    forall p :: Within(f, p) ==> timing(at + p) >= |At(f, p).calls|
  }

  lemma {:induction false} EmitsLastBelow(f: CallFrame, at: Path, i: nat, timing: Timing)
    requires EmitsLast(f, at, timing) && i < |f.calls|
    ensures EmitsLast(f.calls[i], at + [i], timing)
  {
    forall p | Within(f.calls[i], p) ensures timing(at + [i] + p) >= |At(f.calls[i], p).calls| {
      var q := [i] + p;
      assert q[1..] == p && Within(f, q);
      assert at + q == at + [i] + p;
    }
  }

  /** With nesting, an emitter that emits last comes after the one inside it: the orders differ. */
  lemma {:induction false} SameOrderMeansNoNesting(f: CallFrame, at: Path, emits: Header -> bool, timing: Timing)
    requires EmitsLast(f, at, timing)
    requires Emitted(f, at, emits, timing) == LivePaths(f, emits)
    ensures NoNesting(f, emits)
    decreases f, 1
  {
    if f.error == "" {
      var inner, below := EmittedIn(f.calls, 0, |f.calls|, at, emits, timing), LivePathsIn(f.calls, 0, emits);
      LateEmission(f, at, emits, timing);
      if emits(f.head) {
        assert inner + [[]] == [[]] + below;
        OwnPathRotates(inner, below);
        LivePathsInExact(f.calls, 0, emits);
        assert LivePaths(f, emits) == [[]];
      } else {
        assert [] + below == below;
        SameOrderIn(f, 0, at, emits, timing);
        NoNestingFromBelow(f, emits);
      }
    }
  }

  lemma {:induction false} LateEmission(f: CallFrame, at: Path, emits: Header -> bool, timing: Timing)
    requires EmitsLast(f, at, timing) && f.error == ""
    ensures Emitted(f, at, emits, timing)
         == EmittedIn(f.calls, 0, |f.calls|, at, emits, timing) + (if emits(f.head) then [[]] else [])
  {
    assert at + [] == at && Within(f, []);
    var inner := EmittedIn(f.calls, 0, |f.calls|, at, emits, timing);
    assert inner + [] + [] == inner && inner + [[]] + [] == inner + [[]];
  }

  lemma {:induction false} OwnPathRotates(inner: seq<Path>, below: seq<Path>)
    requires inner + [[]] == [[]] + below
    ensures below != [] ==> [] in below
  {
    if below != [] {
      assert |inner| == |below|;
      assert below[|below| - 1] == ([[]] + below)[|below|] == (inner + [[]])[|inner|] == [];
    }
  }

  lemma {:induction false} NoNestingFromBelow(f: CallFrame, emits: Header -> bool)
    requires f.error == "" && !emits(f.head)
    requires forall j :: 0 <= j < |f.calls| ==> NoNesting(f.calls[j], emits)
    ensures NoNesting(f, emits)
  {
    LivePathsExact(f, emits);
    forall p, q | p in LivePaths(f, emits) && q in LivePaths(f, emits) ensures !(p < q) {
      assert p != [] && q != [] by { assert Wanted(f, emits, p) && Wanted(f, emits, q); }
      LivePathsExact(f.calls[p[0]], emits);
      if p[0] == q[0] {
        assert Wanted(f.calls[p[0]], emits, p[1..]) && Wanted(f.calls[p[0]], emits, q[1..]);
        assert NoNesting(f.calls[p[0]], emits);
        assert p == [p[0]] + p[1..] && q == [q[0]] + q[1..];
        assert p < q <==> p[1..] < q[1..];
      }
    }
  }

  lemma {:induction false} SameOrderIn(f: CallFrame, i: nat, at: Path, emits: Header -> bool, timing: Timing)
    requires EmitsLast(f, at, timing) && i <= |f.calls|
    requires EmittedIn(f.calls, i, |f.calls|, at, emits, timing) == LivePathsIn(f.calls, i, emits)
    ensures forall j :: i <= j < |f.calls| ==> NoNesting(f.calls[j], emits)
    decreases f, 0, |f.calls| - i
  {
    if i < |f.calls| {
      var e, l := Emitted(f.calls[i], at + [i], emits, timing), LivePaths(f.calls[i], emits);
      EmittedCount(f.calls[i], at + [i], emits, timing);
      var all := LivePathsIn(f.calls, i, emits);
      assert Under(i, e) == all[..|e|] == Under(i, l);
      assert EmittedIn(f.calls, i + 1, |f.calls|, at, emits, timing) == all[|e|..];
      forall k | 0 <= k < |e| ensures e[k] == l[k] {
        assert Under(i, e)[k][1..] == e[k] && Under(i, l)[k][1..] == l[k];
      }
      EmitsLastBelow(f, at, i, timing);
      SameOrderMeansNoNesting(f.calls[i], at + [i], emits, timing);
      SameOrderIn(f, i + 1, at, emits, timing);
    }
  }

  function AtEnd(root: CallFrame): Timing {
    p => if Within(root, p) then |At(root, p).calls| else 0
  }

  ghost predicate SameOrderAtAnyTiming(root: CallFrame, emits: Header -> bool) {
    forall timing: Timing :: Emitted(root, [], emits, timing) == LivePaths(root, emits)
  }

  /**
   Trace order equals emission order for every timing exactly when no emitting frame contains
   another: the condition the pairing rests on is also necessary.
  */
  lemma {:induction false} PairingOrderExact(root: CallFrame, emits: Header -> bool)
    ensures SameOrderAtAnyTiming(root, emits) <==> NoNesting(root, emits)
  {
    if NoNesting(root, emits) {
      forall timing: Timing ensures Emitted(root, [], emits, timing) == LivePaths(root, emits) {
        EmissionOrderIsCallOrder(root, [], emits, timing);
      }
    }
    if SameOrderAtAnyTiming(root, emits) {
      var last := AtEnd(root);
      forall p | Within(root, p) ensures last([] + p) >= |At(root, p).calls| {
        assert [] + p == p;
      }
      assert Emitted(root, [], emits, last) == LivePaths(root, emits);
      SameOrderMeansNoNesting(root, [], emits, last);
    }
  }

  /** One prove call inside another that emits last: the walk meets the outer one first, the receipt has the inner one first. */
  lemma {:induction false} NestedCallsSwap(outer: CallFrame, inner: CallFrame, emits: Header -> bool, timing: Timing)
    requires outer.error == "" && outer.calls == [inner] && inner.error == "" && inner.calls == []
    requires emits(outer.head) && emits(inner.head) && timing([]) >= 1
    ensures LivePaths(outer, emits) == [[], [0]] && Emitted(outer, [], emits, timing) == [[0], []]
  {
    var none: seq<Path> := [];
    var root: Path := [];
    assert LivePaths(inner, emits) == [root] == Emitted(inner, root + [0], emits, timing);
    assert LivePathsIn(outer.calls, 0, emits) == Under(0, [root]) + none;
    assert EmittedIn(outer.calls, 0, 1, root, emits, timing) == Under(0, [root]) + none;
    assert [0] + root == [0] && Under(0, [root]) == [[0]];
  }

  // ---- Restricting to fewer emitters --------------------------------------------------------

  function Passes(f: CallFrame, emits: Header -> bool): Path -> bool {
    p => Within(f, p) && emits(At(f, p).head)
  }

  /** Of all emissions, those of the frames singled out come in the order they have alone. */
  lemma {:induction false} EmittedRestricts(f: CallFrame, at: Path, emits: Header -> bool, only: Header -> bool, timing: Timing)
    requires forall h :: only(h) ==> emits(h)
    ensures Filter(Emitted(f, at, emits, timing), Passes(f, only)) == Emitted(f, at, only, timing)
    decreases f, 1
  {
    if f.error == "" {
      var k := if timing(at) <= |f.calls| then timing(at) else |f.calls|;
      var a, b := EmittedIn(f.calls, 0, k, at, emits, timing), EmittedIn(f.calls, k, |f.calls|, at, emits, timing);
      var own: seq<Path> := if emits(f.head) then [[]] else [];
      EmittedInRestricts(f, 0, k, at, emits, only, timing);
      EmittedInRestricts(f, k, |f.calls|, at, emits, only, timing);
      FilterAppend(a + own, b, Passes(f, only));
      FilterAppend(a, own, Passes(f, only));
      var root: Path := [];
      FilterOne(root, Passes(f, only));
      assert Within(f, root) && At(f, root) == f;
      assert Passes(f, only)(root) == (Within(f, root) && only(At(f, root).head));
      assert only(f.head) ==> emits(f.head);
    }
  }

  lemma {:induction false} EmittedInRestricts(f: CallFrame, i: nat, k: nat, at: Path, emits: Header -> bool, only: Header -> bool, timing: Timing)
    requires i <= k <= |f.calls| && forall h :: only(h) ==> emits(h)
    ensures Filter(EmittedIn(f.calls, i, k, at, emits, timing), Passes(f, only)) == EmittedIn(f.calls, i, k, at, only, timing)
    decreases f, 0, k - i
  {
    if i < k {
      var ps := Emitted(f.calls[i], at + [i], emits, timing);
      EmittedRestricts(f.calls[i], at + [i], emits, only, timing);
      EmittedInRestricts(f, i + 1, k, at, emits, only, timing);
      FilterUnderFrame(f, i, ps, only);
      FilterAppend(Under(i, ps), EmittedIn(f.calls, i + 1, k, at, emits, timing), Passes(f, only));
    }
  }

  lemma {:induction false} PassesUnder(f: CallFrame, i: nat, p: Path, emits: Header -> bool)
    requires i < |f.calls|
    ensures Passes(f, emits)([i] + p) == Passes(f.calls[i], emits)(p)
  {
    var q := [i] + p;
    assert q[1..] == p && q[0] == i;
    assert Within(f, q) == Within(f.calls[i], p);
    if Within(f, q) {
      assert At(f, q) == At(f.calls[i], p);
    }
    assert Passes(f, emits)(q) == (Within(f, q) && emits(At(f, q).head));
  }

  lemma {:induction false} FilterUnderFrame(f: CallFrame, i: nat, ps: seq<Path>, emits: Header -> bool)
    requires i < |f.calls|
    ensures Filter(Under(i, ps), Passes(f, emits)) == Under(i, Filter(ps, Passes(f.calls[i], emits)))
  {
    if ps != [] {
      FilterUnderFrame(f, i, ps[1..], emits);
      assert Under(i, ps)[0][1..] == ps[0];
      PassesUnder(f, i, ps[0], emits);
      assert Under(i, ps)[1..] == Under(i, ps[1..]);
    }
  }

  /** The walk lists frames in the order of an emission at the very start of each call. */
  lemma {:induction false} WalkIsEarlyEmission(f: CallFrame, at: Path, want: Header -> bool)
    ensures Emitted(f, at, want, p => 0) == LivePaths(f, want)
    decreases f, 1
  {
    if f.error == "" {
      WalkInIsEarlyEmission(f.calls, 0, at, want);
    }
  }

  lemma {:induction false} WalkInIsEarlyEmission(cs: seq<CallFrame>, i: nat, at: Path, want: Header -> bool)
    requires i <= |cs|
    ensures EmittedIn(cs, i, |cs|, at, want, p => 0) == LivePathsIn(cs, i, want)
    decreases cs, 0, |cs| - i
  {
    if i < |cs| {
      WalkIsEarlyEmission(cs[i], at + [i], want);
      WalkInIsEarlyEmission(cs, i + 1, at, want);
    }
  }

  lemma {:induction false} LivePathsRestrict(f: CallFrame, want: Header -> bool, only: Header -> bool)
    requires forall h :: only(h) ==> want(h)
    ensures Filter(LivePaths(f, want), Passes(f, only)) == LivePaths(f, only)
  {
    WalkIsEarlyEmission(f, [], want);
    WalkIsEarlyEmission(f, [], only);
    EmittedRestricts(f, [], want, only, p => 0);
  }
}
