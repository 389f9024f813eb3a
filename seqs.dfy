/** Concatenation of a sequence of sequences, shared by the byte and char mergers. */
module Seqs {

  /** `parts[0] + parts[1] + ... + parts[|parts| - 1]`. */
  function Flatten<T>(parts: seq<seq<T>>): seq<T>
  {
    if parts == [] then [] else Flatten(parts[..|parts| - 1]) + parts[|parts| - 1]
  }

  /** Total length of the first `k` parts: the offset at which part `k` starts. */
  function Offset<T>(parts: seq<seq<T>>, k: nat): nat
    requires k <= |parts|
  {
    if k == 0 then 0 else Offset(parts, k - 1) + |parts[k - 1]|
  }

  lemma {:induction false} OffsetPrefix<T>(parts: seq<seq<T>>, k: nat, n: nat)
    requires k <= n <= |parts|
    ensures Offset(parts[..n], k) == Offset(parts, k)
  {
    if k > 0 {
      OffsetPrefix(parts, k - 1, n);
      assert parts[..n][k - 1] == parts[k - 1];
    }
  }

  /** The merged length is the sum of the lengths of the parts. */
  lemma {:induction false} FlattenLength<T>(parts: seq<seq<T>>)
    ensures |Flatten(parts)| == Offset(parts, |parts|)
  {
    if parts != [] {
      var init := parts[..|parts| - 1];
      FlattenLength(init);
      OffsetPrefix(parts, |parts| - 1, |parts| - 1);
    }
  }

  /** Part `k` appears unchanged at the offset equal to the lengths of the parts before it. */
  lemma {:induction false} FlattenAt<T>(parts: seq<seq<T>>, k: nat)
    requires k < |parts|
    ensures Offset(parts, k) + |parts[k]| <= |Flatten(parts)|
    ensures Flatten(parts)[Offset(parts, k)..Offset(parts, k) + |parts[k]|] == parts[k]
  {
    var init := parts[..|parts| - 1];
    var f := Flatten(init);
    assert Flatten(parts) == f + parts[|parts| - 1];
    FlattenLength(init);
    OffsetPrefix(parts, |parts| - 1, |parts| - 1);
    assert |f| == Offset(parts, |parts| - 1);
    if k == |parts| - 1 {
      AppendRight(f, parts[k]);
    } else {
      FlattenAt(init, k);
      OffsetPrefix(parts, k, |parts| - 1);
      assert init[k] == parts[k];
      AppendLeft(f, parts[|parts| - 1], Offset(parts, k), Offset(parts, k) + |parts[k]|);
    }
  }

  lemma AppendLeft<T>(a: seq<T>, b: seq<T>, lo: nat, hi: nat)
    requires lo <= hi <= |a|
    ensures (a + b)[lo..hi] == a[lo..hi]
  {
  }

  lemma AppendRight<T>(a: seq<T>, b: seq<T>)
    ensures (a + b)[|a|..|a| + |b|] == b
  {
  }

  /** Merging no parts gives the empty sequence; merging one part gives that part. */
  lemma FlattenSmall<T>(parts: seq<seq<T>>)
    requires |parts| <= 1
    ensures parts == [] ==> Flatten(parts) == []
    ensures |parts| == 1 ==> Flatten(parts) == parts[0]
  {
    if |parts| == 1 {
      assert parts[..0] == [];
    }
  }

  /** The first `i + 1` elements are the first `i` followed by element `i`. */
  lemma TakeSnoc<T>(s: seq<T>, i: nat)
    requires i < |s|
    ensures s[..i + 1] == s[..i] + [s[i]]
  {
  }

  lemma SliceSnoc<T>(s: seq<T>, lo: nat, i: nat)
    requires lo <= i < |s|
    ensures s[lo..i + 1] == s[lo..i] + [s[i]]
  {
  }

  /** Appending one more part extends the merge by that part. */
  lemma FlattenSnoc<T>(parts: seq<seq<T>>, p: seq<T>)
    ensures Flatten(parts + [p]) == Flatten(parts) + p
  {
    assert (parts + [p])[..|parts|] == parts;
  }

  lemma {:induction false} FlattenAppend<T>(xs: seq<seq<T>>, ys: seq<seq<T>>)
    ensures Flatten(xs + ys) == Flatten(xs) + Flatten(ys)
    decreases |ys|
  {
    if ys == [] {
      assert xs + ys == xs;
    } else {
      var init := ys[..|ys| - 1];
      var last := ys[|ys| - 1];
      assert xs + ys == (xs + init) + [last];
      FlattenSnoc(xs + init, last);
      FlattenAppend(xs, init);
      assert ys == init + [last];
      FlattenSnoc(init, last);
    }
  }

  lemma FlattenCons<T>(p: seq<T>, parts: seq<seq<T>>)
    ensures Flatten([p] + parts) == p + Flatten(parts)
  {
    FlattenAppend([p], parts);
    FlattenSmall([p]);
  }

  /** The elements among the first `n` that `keep` accepts, in their order. */
  function Kept<T>(xs: seq<T>, keep: T -> bool, n: nat): (r: seq<T>)
    requires n <= |xs|
    ensures |r| <= n
  {
    if n == 0 then [] else Kept(xs, keep, n - 1) + (if keep(xs[n - 1]) then [xs[n - 1]] else [])
  }

  /** The positions, among the first `n`, of the elements `keep` accepts. */
  function KeptPositions<T>(xs: seq<T>, keep: T -> bool, n: nat): seq<nat>
    requires n <= |xs|
  {
    if n == 0 then [] else KeptPositions(xs, keep, n - 1) + (if keep(xs[n - 1]) then [n - 1] else [])
  }

  /** An element is kept exactly when it is among the first `n` and accepted. */
  lemma {:induction false} KeptMembers<T>(xs: seq<T>, keep: T -> bool, n: nat)
    requires n <= |xs|
    ensures forall x :: x in Kept(xs, keep, n) <==> x in xs[..n] && keep(x)
  {
    if n > 0 {
      TakeSnoc(xs, n - 1);
      KeptMembers(xs, keep, n - 1);
    }
  }

  /** Nothing is kept when nothing among the first `n` is accepted. */
  lemma {:induction false} KeptNone<T>(xs: seq<T>, keep: T -> bool, n: nat)
    requires n <= |xs| && forall i :: 0 <= i < n ==> !keep(xs[i])
    ensures Kept(xs, keep, n) == []
  {
    if n > 0 {
      KeptNone(xs, keep, n - 1);
    }
  }

  /** Kept element `j` is the element at position `j` of the positions. */
  lemma {:induction false} KeptPositionsSource<T>(xs: seq<T>, keep: T -> bool, n: nat)
    requires n <= |xs|
    ensures |KeptPositions(xs, keep, n)| == |Kept(xs, keep, n)|
    ensures forall j :: 0 <= j < |KeptPositions(xs, keep, n)| ==>
      KeptPositions(xs, keep, n)[j] < n && xs[KeptPositions(xs, keep, n)[j]] == Kept(xs, keep, n)[j]
  {
    if n > 0 {
      KeptPositionsSource(xs, keep, n - 1);
      var q := Kept(xs, keep, n - 1);
      var pq := KeptPositions(xs, keep, n - 1);
      if keep(xs[n - 1]) {
        var r := q + [xs[n - 1]];
        var pos := pq + [n - 1];
        assert Kept(xs, keep, n) == r;
        assert KeptPositions(xs, keep, n) == pos;
        forall j | 0 <= j < |pos|
          ensures pos[j] < n && xs[pos[j]] == r[j]
        {
          if j < |pq| {
            assert pos[j] == pq[j] && r[j] == q[j];
          }
        }
      }
    }
  }

  /** The positions stay below `n` and strictly increase. */
  lemma {:induction false} KeptPositionsIncrease<T>(xs: seq<T>, keep: T -> bool, n: nat)
    requires n <= |xs|
    ensures forall j :: 0 <= j < |KeptPositions(xs, keep, n)| ==> KeptPositions(xs, keep, n)[j] < n
    ensures forall j, k :: 0 <= j < k < |KeptPositions(xs, keep, n)| ==>
      KeptPositions(xs, keep, n)[j] < KeptPositions(xs, keep, n)[k]
  {
    if n > 0 {
      KeptPositionsIncrease(xs, keep, n - 1);
      var pq := KeptPositions(xs, keep, n - 1);
      if keep(xs[n - 1]) {
        var pos := pq + [n - 1];
        assert KeptPositions(xs, keep, n) == pos;
        forall j | 0 <= j < |pos|
          ensures pos[j] < n
        {
          if j < |pq| {
            assert pos[j] == pq[j];
          }
        }
        forall j, k | 0 <= j < k < |pos|
          ensures pos[j] < pos[k]
        {
          assert pos[j] == pq[j] && pq[j] < n - 1;
          if k < |pq| {
            assert pos[k] == pq[k];
          }
        }
      }
    }
  }

  /** Every source key is in `m`. */
  predicate SourcesIn<K, V>(m: map<K, V>, sources: seq<K>) {
    forall k :: 0 <= k < |sources| ==> sources[k] in m
  }

  /** `m` after `n` rounds of `m[targets[k] := f(k, m[sources[k]])]`: each round copies a transformed value to a new key. */
  function Transferred<K, V>(m: map<K, V>, sources: seq<K>, targets: seq<K>, f: (nat, V) -> V, n: nat): (r: map<K, V>)
    requires |sources| == |targets| && SourcesIn(m, sources) && n <= |sources|
    ensures m.Keys <= r.Keys
    ensures forall k :: 0 <= k < n ==> targets[k] in r
  {
    if n == 0 then m
    else
      var prev := Transferred(m, sources, targets, f, n - 1);
      prev[targets[n - 1] := f(n - 1, prev[sources[n - 1]])]
  }

  /** One round of `Transferred`. */
  lemma TransferredStep<K, V>(m: map<K, V>, sources: seq<K>, targets: seq<K>, f: (nat, V) -> V, i: nat)
    requires |sources| == |targets| && SourcesIn(m, sources) && i < |sources|
    ensures sources[i] in Transferred(m, sources, targets, f, i)
    ensures Transferred(m, sources, targets, f, i + 1)
      == Transferred(m, sources, targets, f, i)[targets[i] := f(i, Transferred(m, sources, targets, f, i)[sources[i]])]
  {
  }

  /** A key no round writes keeps its presence and its value. */
  lemma {:induction false} TransferredUntouched<K, V>(m: map<K, V>, sources: seq<K>, targets: seq<K>, f: (nat, V) -> V, n: nat, p: K)
    requires |sources| == |targets| && SourcesIn(m, sources) && n <= |sources|
    requires forall k :: 0 <= k < n ==> p != targets[k]
    ensures p in Transferred(m, sources, targets, f, n) <==> p in m
    ensures p in m ==> Transferred(m, sources, targets, f, n)[p] == m[p]
  {
    if n > 0 {
      TransferredUntouched(m, sources, targets, f, n - 1, p);
      assert p != targets[n - 1];
    }
  }

  /** Round `i`'s value survives when no later round writes its key and no earlier round wrote its source. */
  lemma {:induction false} TransferredAt<K, V>(m: map<K, V>, sources: seq<K>, targets: seq<K>, f: (nat, V) -> V, n: nat, i: nat)
    requires |sources| == |targets| && SourcesIn(m, sources) && i < n <= |sources|
    requires forall k :: i < k < n ==> targets[i] != targets[k]
    requires forall k :: 0 <= k < i ==> sources[i] != targets[k]
    ensures Transferred(m, sources, targets, f, n)[targets[i]] == f(i, m[sources[i]])
  {
    var prev := Transferred(m, sources, targets, f, n - 1);
    if i == n - 1 {
      TransferredUntouched(m, sources, targets, f, n - 1, sources[i]);
      assert prev[sources[i]] == m[sources[i]];
    } else {
      TransferredAt(m, sources, targets, f, n - 1, i);
      assert targets[i] != targets[n - 1];
    }
  }
}
