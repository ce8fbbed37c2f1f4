/**
 Walking a callTracer tree (op-monitorism/withdrawals-v2/monitor.go).

 A frame pointer of the program is a path here: the child positions leading from the traced
 root to the frame. Paths carry the identity that equal-looking frames do not have.
*/
module CallTrace {
  import opened Basics
  import opened Hex

  /** What the tracer reports about one frame, its subcalls aside. */
  datatype Header = Header(kind: string, to: string, input: string, output: string)

  datatype CallFrame = CallFrame(head: Header, error: string, calls: seq<CallFrame>)

  type Path = seq<nat>

  predicate Within(f: CallFrame, p: Path) {
    p == [] || (p[0] < |f.calls| && Within(f.calls[p[0]], p[1..]))
  }

  function At(f: CallFrame, p: Path): CallFrame
    requires Within(f, p)
  {
    if p == [] then f else At(f.calls[p[0]], p[1..])
  }

  /** No frame from the root down to p, both included, carries an error. */
  predicate Live(f: CallFrame, p: Path)
    requires Within(f, p)
  {
    f.error == "" && (p == [] || Live(f.calls[p[0]], p[1..]))
  }

  /** Depth-first pre-order: a frame comes before its subtree, siblings in call order. */
  predicate Before(p: Path, q: Path) {
    q != [] && (p == [] || p[0] < q[0] || (p[0] == q[0] && Before(p[1..], q[1..])))
  }

  predicate Ascending(ps: seq<Path>) {
    forall i, j :: 0 <= i < j < |ps| ==> Before(ps[i], ps[j])
  }

  lemma {:induction false} BeforeIrreflexive(p: Path)
    ensures !Before(p, p)
  {
    if p != [] { BeforeIrreflexive(p[1..]); }
  }

  lemma {:induction false} BeforeAsymmetric(p: Path, q: Path)
    requires Before(p, q)
    ensures !Before(q, p)
  {
    if p != [] && p[0] == q[0] { BeforeAsymmetric(p[1..], q[1..]); }
  }

  lemma {:induction false} PrefixIsBefore(p: Path, q: Path)
    requires p < q
    ensures Before(p, q)
  {
    if p != [] {
      assert q[1..][..|p| - 1] == q[..|p|][1..];
      PrefixIsBefore(p[1..], q[1..]);
    }
  }

  // ---- Collecting live frames ------------------------------------------------------------

  function Under(i: nat, ps: seq<Path>): (r: seq<Path>)
    ensures |r| == |ps|
  {
    seq(|ps|, k requires 0 <= k < |ps| => [i] + ps[k])
  }

  /** The walk: an errored frame ends it, a wanted frame is taken before its subcalls. */
  function LivePaths(f: CallFrame, want: Header -> bool): seq<Path>
    decreases f, 1
  {
    if f.error != "" then []
    else (if want(f.head) then [[]] else []) + LivePathsIn(f.calls, 0, want)
  }

  function LivePathsIn(cs: seq<CallFrame>, i: nat, want: Header -> bool): seq<Path>
    requires i <= |cs|
    decreases cs, 0, |cs| - i
  {
    if i == |cs| then [] else Under(i, LivePaths(cs[i], want)) + LivePathsIn(cs, i + 1, want)
  }

  /** p is a wanted frame with no error on the way to it: the declarative side of the walk. */
  predicate Wanted(f: CallFrame, want: Header -> bool, p: Path) {
    Within(f, p) && Live(f, p) && want(At(f, p).head)
  }

  predicate WantedFrom(cs: seq<CallFrame>, i: nat, want: Header -> bool, p: Path) {
    p != [] && i <= p[0] < |cs| && Wanted(cs[p[0]], want, p[1..])
  }

  lemma {:induction false} UnderMembers(i: nat, ps: seq<Path>, p: Path)
    ensures p in Under(i, ps) <==> p != [] && p[0] == i && p[1..] in ps
  {
    if p in Under(i, ps) {
      var k :| 0 <= k < |ps| && Under(i, ps)[k] == p;
      assert p[1..] == ps[k];
    }
    if p != [] && p[0] == i && p[1..] in ps {
      var k :| 0 <= k < |ps| && ps[k] == p[1..];
      assert p == [i] + p[1..] == Under(i, ps)[k];
    }
  }

  lemma {:induction false} UnderAscending(i: nat, ps: seq<Path>)
    requires Ascending(ps)
    ensures Ascending(Under(i, ps))
  {
    var us := Under(i, ps);
    forall a, b | 0 <= a < b < |us| ensures Before(us[a], us[b]) {
      assert us[a][1..] == ps[a] && us[b][1..] == ps[b];
    }
  }

  lemma {:induction false} AscendingConcat(a: seq<Path>, b: seq<Path>)
    requires Ascending(a) && Ascending(b)
    requires forall p, q :: p in a && q in b ==> Before(p, q)
    ensures Ascending(a + b)
  {
    var c := a + b;
    forall i, j | 0 <= i < j < |c| ensures Before(c[i], c[j]) {
      if i < |a| <= j {
        assert c[i] in a && c[j] in b;
      }
    }
  }

  /**
   The walk is sound, complete and in pre-order: it lists exactly the wanted frames that have
   no errored frame at or above them, each once, ascending in pre-order.
  */
  lemma {:induction false} LivePathsExact(f: CallFrame, want: Header -> bool)
    ensures Ascending(LivePaths(f, want))
    ensures forall p :: p in LivePaths(f, want) <==> Wanted(f, want, p)
    decreases f, 1
  {
    if f.error == "" {
      LivePathsInExact(f.calls, 0, want);
      var own := if want(f.head) then [[]] else [];
      AscendingConcat(own, LivePathsIn(f.calls, 0, want));
      forall p ensures p in LivePaths(f, want) <==> Wanted(f, want, p) {
        if p == [] {
          assert [] !in LivePathsIn(f.calls, 0, want);
        } else {
          assert p !in own;
          assert WantedFrom(f.calls, 0, want, p) <==> Wanted(f, want, p);
        }
      }
    }
  }

  lemma {:induction false} LivePathsInExact(cs: seq<CallFrame>, i: nat, want: Header -> bool)
    requires i <= |cs|
    ensures Ascending(LivePathsIn(cs, i, want))
    ensures forall p :: p in LivePathsIn(cs, i, want) <==> WantedFrom(cs, i, want, p)
    decreases cs, 0, |cs| - i
  {
    if i < |cs| {
      var first, rest := Under(i, LivePaths(cs[i], want)), LivePathsIn(cs, i + 1, want);
      LivePathsExact(cs[i], want);
      LivePathsInExact(cs, i + 1, want);
      UnderAscending(i, LivePaths(cs[i], want));
      forall p ensures p in first <==> p != [] && p[0] == i && Wanted(cs[i], want, p[1..]) {
        UnderMembers(i, LivePaths(cs[i], want), p);
      }
      AscendingConcat(first, rest);
    }
  }

  /** An ascending list is determined by its members, so the characterization above is total. */
  lemma {:induction false} AscendingUnique(a: seq<Path>, b: seq<Path>)
    requires Ascending(a) && Ascending(b)
    requires forall p :: p in a <==> p in b
    ensures a == b
  {
    assert b == [] || b[0] in a;
    if a != [] {
      assert a[0] in b;
      var i :| 0 <= i < |b| && b[i] == a[0];
      var j :| 0 <= j < |a| && a[j] == b[0];
      if i > 0 {
        assert Before(b[0], b[i]);
        BeforeIrreflexive(a[0]);
        if j > 0 { BeforeAsymmetric(b[0], a[0]); }
      }
      forall p ensures p in a[1..] <==> p in b[1..] {
        TailMembers(a, p);
        TailMembers(b, p);
      }
      AscendingUnique(a[1..], b[1..]);
    }
  }

  lemma {:induction false} TailMembers(a: seq<Path>, p: Path)
    requires Ascending(a) && a != []
    ensures p in a[1..] <==> p in a && p != a[0]
  {
    if p in a[1..] {
      var k :| 0 <= k < |a[1..]| && a[1..][k] == p;
      assert Before(a[0], a[k + 1]);
      BeforeIrreflexive(a[0]);
    }
  }

  // ---- Reverted frames are opaque --------------------------------------------------------

  /** The same trace as far as execution took effect: errored frames may differ in any way. */
  predicate SameEffect(f: CallFrame, g: CallFrame) {
    if f.error != "" || g.error != "" then f.error != "" && g.error != ""
    else f.head == g.head && SameEffects(f.calls, g.calls)
  }

  predicate SameEffects(cs: seq<CallFrame>, ds: seq<CallFrame>) {
    |cs| == |ds| && forall i :: 0 <= i < |cs| ==> SameEffect(cs[i], ds[i])
  }

  lemma {:induction false} SameEffectSamePaths(f: CallFrame, g: CallFrame, want: Header -> bool)
    requires SameEffect(f, g)
    ensures LivePaths(f, want) == LivePaths(g, want)
    decreases f, 1
  {
    if f.error == "" {
      SameEffectsSamePaths(f.calls, g.calls, 0, want);
    }
  }

  lemma {:induction false} SameEffectsSamePaths(cs: seq<CallFrame>, ds: seq<CallFrame>, i: nat, want: Header -> bool)
    requires SameEffects(cs, ds) && i <= |cs|
    ensures LivePathsIn(cs, i, want) == LivePathsIn(ds, i, want)
    decreases cs, 0, |cs| - i
  {
    if i < |cs| {
      SameEffectSamePaths(cs[i], ds[i], want);
      SameEffectsSamePaths(cs, ds, i + 1, want);
    }
  }

  lemma {:induction false} SameEffectAt(f: CallFrame, g: CallFrame, p: Path)
    requires SameEffect(f, g) && Within(f, p) && Live(f, p)
    ensures Within(g, p) && Live(g, p) && SameEffect(At(f, p), At(g, p)) && At(f, p).head == At(g, p).head
  {
    if p != [] {
      SameEffectAt(f.calls[p[0]], g.calls[p[0]], p[1..]);
    }
  }

  // ---- collectProveCalls -----------------------------------------------------------------

  /** The monitor's portal: its address as lower-case hex, and the prove method's selector. */
  datatype Portal = Portal(addressHex: string, proveSelector: seq<Byte>)

  /** A successful frame of this kind is a prove call: a CALL to the portal with the selector. */
  predicate IsProveCall(portal: Portal, h: Header) {
    && h.kind == "CALL"
    && Lower(h.to) == Lower(portal.addressHex)
    && var input := FromHex(h.input);
       |input| >= 4 && |portal.proveSelector| == 4 && input[..4] == portal.proveSelector
  }

  /** A plain call of this portal with the prove selector and these argument bytes. */
  predicate CallsProve(portal: Portal, h: Header, args: seq<Byte>) {
    && h.kind == "CALL" && SameButForCase(h.to, portal.addressHex)
    && |portal.proveSelector| == 4 && FromHex(h.input) == portal.proveSelector + args
  }

  /** Exactly these frames are collected. */
  lemma {:induction false} ProveCallExactly(portal: Portal, h: Header)
    ensures IsProveCall(portal, h) <==> exists args :: CallsProve(portal, h, args)
  {
    hide FromHex, Lower, SameButForCase;
    LowerExactly(h.to, portal.addressHex);
    var input := FromHex(h.input);
    if IsProveCall(portal, h) {
      assert input == input[..4] + input[4..];
      assert CallsProve(portal, h, input[4..]);
    }
    if args :| CallsProve(portal, h, args) {
      assert input[..4] == portal.proveSelector;
    }
  }

  /** In particular a call printed in hex, to the address in any case; but no delegate call and no shorter calldata. */
  lemma {:induction false} CollectedOrNot(portal: Portal, kind: string, to: string, args: seq<Byte>, output: string)
    requires |portal.proveSelector| == 4 && SameButForCase(to, portal.addressHex)
    ensures IsProveCall(portal, Header(kind, to, ToHex(portal.proveSelector + args), output)) <==> kind == "CALL"
    ensures forall n :: 0 <= n < 4 ==> !IsProveCall(portal, Header(kind, to, ToHex(portal.proveSelector[..n]), output))
  {
    hide FromHex, ToHex, SameButForCase;
    var h := Header(kind, to, ToHex(portal.proveSelector + args), output);
    FromHexToHex(portal.proveSelector + args);
    ProveCallExactly(portal, h);
    assert kind == "CALL" ==> CallsProve(portal, h, args);
    forall n | 0 <= n < 4 ensures !IsProveCall(portal, Header(kind, to, ToHex(portal.proveSelector[..n]), output)) {
      FromHexToHex(portal.proveSelector[..n]);
      ProveCallExactly(portal, Header(kind, to, ToHex(portal.proveSelector[..n]), output));
    }
  }

  function ProveCallsTo(portal: Portal): Header -> bool { h => IsProveCall(portal, h) }

  /** A collected call: its calldata, and the address of its frame in the trace. */
  datatype TracedProveCall = TracedProveCall(input: seq<Byte>, frame: Path)

  /** The calls found at `ps` below the frame whose own address is `at`. */
  function TracedAt(f: CallFrame, at: Path, ps: seq<Path>): (r: seq<TracedProveCall>)
    requires forall p :: p in ps ==> Within(f, p)
    ensures |r| == |ps|
  {
    seq(|ps|, k requires 0 <= k < |ps| =>
        assert ps[k] in ps; TracedProveCall(FromHex(At(f, ps[k]).head.input), at + ps[k]))
  }

  function ProvePaths(portal: Portal, f: CallFrame): (ps: seq<Path>)
    ensures forall p :: p in ps ==> Within(f, p)
  {
    LivePathsExact(f, ProveCallsTo(portal));
    LivePaths(f, ProveCallsTo(portal))
  }

  /** What collectProveCalls finds in the subtree of the frame `f` standing at `at`. */
  function ProveCalls(portal: Portal, f: CallFrame, at: Path): seq<TracedProveCall> {
    TracedAt(f, at, ProvePaths(portal, f))
  }

  /** What the walk finds below f from its i-th subcall on. */
  function ProveCallsIn(portal: Portal, f: CallFrame, at: Path, i: nat): seq<TracedProveCall>
    requires i <= |f.calls|
  {
    var want := ProveCallsTo(portal);
    LivePathsInExact(f.calls, i, want);
    TracedAt(f, at, LivePathsIn(f.calls, i, want))
  }

  class ProveCallList {
    var items: seq<TracedProveCall>
    constructor ()
      ensures items == []
    {
      items := [];
    }
  }

  /** Appends the prove calls of one subtree to `out`, in trace order. */
  method CollectProveCalls(portal: Portal, frame: CallFrame, at: Path, out: ProveCallList)
    modifies out
    ensures out.items == old(out.items) + ProveCalls(portal, frame, at)
    decreases frame
  {
    if frame.error != "" {
      return;
    }
    ProveCallsSplit(portal, frame, at);
    if frame.head.kind == "CALL" && Lower(frame.head.to) == Lower(portal.addressHex) {
      var input := FromHex(frame.head.input);
      if |input| >= 4 && |portal.proveSelector| == 4 && input[..4] == portal.proveSelector {
        out.items := out.items + [TracedProveCall(input, at)];
      }
    }
    ghost var base, own := old(out.items), OwnProveCall(portal, frame, at);
    assert out.items == base + own;
    Assoc(base, own, ProveCallsIn(portal, frame, at, 0));
    for i := 0 to |frame.calls|
      invariant out.items + ProveCallsIn(portal, frame, at, i) == old(out.items) + ProveCalls(portal, frame, at)
    {
      ProveCallsStep(portal, frame, at, i);
      Assoc(out.items, ProveCalls(portal, frame.calls[i], at + [i]), ProveCallsIn(portal, frame, at, i + 1));
      CollectProveCalls(portal, frame.calls[i], at + [i], out);
    }
    assert ProveCallsIn(portal, frame, at, |frame.calls|) == [];
  }

  function OwnProveCall(portal: Portal, f: CallFrame, at: Path): seq<TracedProveCall> {
    if IsProveCall(portal, f.head) then [TracedProveCall(FromHex(f.head.input), at)] else []
  }

  lemma {:induction false} ProveCallsSplit(portal: Portal, f: CallFrame, at: Path)
    requires f.error == ""
    ensures ProveCalls(portal, f, at) == OwnProveCall(portal, f, at) + ProveCallsIn(portal, f, at, 0)
  {
    assert at + [] == at;
  }

  lemma {:induction false} ProveCallsStep(portal: Portal, f: CallFrame, at: Path, i: nat)
    requires i < |f.calls|
    ensures ProveCallsIn(portal, f, at, i)
         == ProveCalls(portal, f.calls[i], at + [i]) + ProveCallsIn(portal, f, at, i + 1)
  {
    var want := ProveCallsTo(portal);
    var child := ProvePaths(portal, f.calls[i]);
    var first := ProveCalls(portal, f.calls[i], at + [i]);
    var here := ProveCallsIn(portal, f, at, i);
    assert LivePathsIn(f.calls, i, want) == Under(i, child) + LivePathsIn(f.calls, i + 1, want);
    forall k | 0 <= k < |first| ensures first[k] == here[k] {
      assert child[k] in child;
      assert Under(i, child)[k] == [i] + child[k];
      assert ([i] + child[k])[1..] == child[k];
      assert at + ([i] + child[k]) == (at + [i]) + child[k];
    }
  }
}
