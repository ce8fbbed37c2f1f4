/** Small shared vocabulary: optional values, results, bytes and words of 32 bytes. */
module Basics {
  datatype Option<+T> = None | Some(value: T)

  datatype Result<+T, +E> = Ok(value: T) | Err(error: E)

  type Byte = b: int | 0 <= b < 256

  /** A 32-byte hash: transaction hashes, withdrawal hashes, roots, log topics. */
  type Hash = h: seq<Byte> | |h| == 32 witness seq(32, _ => 0)

  const TWO_32: nat := 0x1_0000_0000
  const TWO_64: nat := 0x1_0000_0000_0000_0000
  type Unsigned64 = n: nat | n < TWO_64
  const MAX_INT64: int := 0x7FFF_FFFF_FFFF_FFFF

  function Min(a: int, b: int): int { if a <= b then a else b }

  function Max(a: int, b: int): int { if a <= b then b else a }

  predicate Distinct<T(==)>(s: seq<T>) {
    forall i, j :: 0 <= i < j < |s| ==> s[i] != s[j]
  }

  function Filter<T>(s: seq<T>, keep: T -> bool): (r: seq<T>)
    ensures |r| <= |s|
  {
    if s == [] then [] else (if keep(s[0]) then [s[0]] else []) + Filter(s[1..], keep)
  }

  lemma {:induction false} FilterAppend<T>(a: seq<T>, b: seq<T>, keep: T -> bool)
    ensures Filter(a + b, keep) == Filter(a, keep) + Filter(b, keep)
  {
    if a == [] {
      assert a + b == b;
    } else {
      assert (a + b)[1..] == a[1..] + b;
      FilterAppend(a[1..], b, keep);
      var head := if keep(a[0]) then [a[0]] else [];
      assert head + (Filter(a[1..], keep) + Filter(b, keep)) == Filter(a, keep) + Filter(b, keep);
    }
  }

  lemma {:induction false} FilterOne<T>(x: T, keep: T -> bool)
    ensures Filter([x], keep) == if keep(x) then [x] else []
  {
    assert [x][1..] == [];
  }

  lemma {:induction false} FilterMembers<T>(s: seq<T>, keep: T -> bool)
    ensures forall x :: x in Filter(s, keep) <==> x in s && keep(x)
  {
    if s != [] {
      FilterMembers(s[1..], keep);
      assert s == [s[0]] + s[1..];
    }
  }

  /** Filtering twice by the same test, and filtering what already passes, change nothing. */
  lemma {:induction false} FilterAll<T>(s: seq<T>, keep: T -> bool)
    requires forall x :: x in s ==> keep(x)
    ensures Filter(s, keep) == s
  {
    if s != [] {
      FilterAll(s[1..], keep);
    }
  }

  lemma {:induction false} Assoc<T>(a: seq<T>, b: seq<T>, c: seq<T>)
    ensures (a + b) + c == a + (b + c)
  {
  }

  lemma {:induction false} FilterStep<T>(s: seq<T>, k: nat, keep: T -> bool)
    requires k < |s|
    ensures Filter(s[..k + 1], keep) == Filter(s[..k], keep) + (if keep(s[k]) then [s[k]] else [])
  {
    assert s[..k + 1] == s[..k] + [s[k]];
    FilterAppend(s[..k], [s[k]], keep);
  }

  /** A kept element is found at the position counting the kept elements before it. */
  lemma {:induction false} FilterPosition<T>(s: seq<T>, k: nat, keep: T -> bool)
    requires k < |s| && keep(s[k])
    ensures |Filter(s[..k], keep)| < |Filter(s, keep)| && Filter(s, keep)[|Filter(s[..k], keep)|] == s[k]
  {
    assert s == s[..k + 1] + s[k + 1..];
    FilterStep(s, k, keep);
    FilterAppend(s[..k + 1], s[k + 1..], keep);
  }

  /** Sequences that pass their tests at the same positions keep equally many elements. */
  lemma {:induction false} FilterAlike<S, T>(s: seq<S>, t: seq<T>, keepS: S -> bool, keepT: T -> bool)
    requires |s| == |t| && forall i :: 0 <= i < |s| ==> keepS(s[i]) == keepT(t[i])
    ensures |Filter(s, keepS)| == |Filter(t, keepT)|
  {
    if s != [] {
      forall i | 0 <= i < |s[1..]| ensures keepS(s[1..][i]) == keepT(t[1..][i]) {
        assert s[1..][i] == s[i + 1] && t[1..][i] == t[i + 1];
      }
      FilterAlike(s[1..], t[1..], keepS, keepT);
    }
  }

  /** A weaker test applied first does not matter. */
  lemma {:induction false} FilterTwice<T>(s: seq<T>, weak: T -> bool, strong: T -> bool)
    requires forall x :: strong(x) ==> weak(x)
    ensures Filter(Filter(s, weak), strong) == Filter(s, strong)
  {
    if s != [] {
      FilterTwice(s[1..], weak, strong);
      var head := if weak(s[0]) then [s[0]] else [];
      FilterAppend(head, Filter(s[1..], weak), strong);
    }
  }
}
