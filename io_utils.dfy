/** `IoUtils.merger`: byte-array concatenation, the only part of IoUtils in the core. */
module IoUtils {
  import opened Bytes
  import opened Seqs

  /** The contents of the argument arrays, in argument order. */
  ghost function Contents(bts: seq<array<Byte>>): (r: seq<seq<Byte>>)
    reads set j | 0 <= j < |bts| :: bts[j]
    ensures |r| == |bts| && forall j :: 0 <= j < |bts| ==> r[j] == bts[j][..]
  {
    seq(|bts|, j requires 0 <= j < |bts| reads if 0 <= j < |bts| then {bts[j]} else {} => bts[j][..])
  }

  /** `System.arraycopy(src, srcPos, dest, destPos, length)` between two distinct arrays. */
  method ArrayCopy(src: array<Byte>, srcPos: nat, dest: array<Byte>, destPos: nat, length: nat)
    requires src != dest
    requires srcPos + length <= src.Length && destPos + length <= dest.Length
    modifies dest
    ensures dest[..destPos] == old(dest[..destPos])
    ensures dest[destPos..destPos + length] == src[srcPos..srcPos + length]
    ensures dest[destPos + length..] == old(dest[destPos + length..])
  {
    forall k | 0 <= k < length {
      dest[destPos + k] := src[srcPos + k];
    }
  }

  /**
   * `merger(byte[]...)`: sums the lengths, allocates one array and copies each
   * argument after the previous ones, advancing `lastLen`. The arguments are not
   * modified (the method has no `modifies` clause) and the result is a new
   * array holding their concatenation.
   */
  method Merger(bts: seq<array<Byte>>) returns (bt: array<Byte>)
    ensures fresh(bt)
    ensures bt.Length == Offset(old(Contents(bts)), |bts|)
    ensures bt[..] == Flatten(old(Contents(bts)))
  {
    ghost var parts := Contents(bts);
    var lenght := 0;
    var i := 0;
    while i < |bts|
      invariant 0 <= i <= |bts|
      invariant lenght == Offset(parts, i)
    {
      lenght := lenght + bts[i].Length;
      i := i + 1;
    }
    bt := new Byte[lenght];
    CopyAll(bts, bt, parts);
    FlattenLength(parts);
  }

  /** The second loop of `merger`: each argument is copied right after the previous ones. */
  method CopyAll(bts: seq<array<Byte>>, bt: array<Byte>, ghost parts: seq<seq<Byte>>)
    requires |parts| == |bts| && bt.Length == Offset(parts, |bts|)
    requires forall j :: 0 <= j < |bts| ==> bts[j] != bt && bts[j][..] == parts[j]
    modifies bt
    ensures bt[..] == Flatten(parts)
  {
    var lastLen := 0;
    var i := 0;
    while i < |bts|
      invariant 0 <= i <= |bts|
      invariant lastLen == Offset(parts, i) <= bt.Length
      invariant bt[..lastLen] == Flatten(parts[..i])
    {
      var b := bts[i];
      assert b[..] == parts[i];
      OffsetMonotone(parts, i + 1, |bts|);
      ghost var next := lastLen + b.Length;
      assert next == Offset(parts, i + 1) <= bt.Length;
      CopyPart(b, bt, lastLen, parts, i);
      lastLen := lastLen + b.Length;
      i := i + 1;
    }
    assert parts[..|bts|] == parts;
    assert bt[..lastLen] == bt[..];
  }

  /** One `arraycopy` of `merger`: argument `i` lands right after the first `i` arguments. */
  method CopyPart(b: array<Byte>, bt: array<Byte>, lastLen: nat, ghost parts: seq<seq<Byte>>, ghost i: nat)
    requires b != bt && i < |parts| && b[..] == parts[i]
    requires lastLen + b.Length <= bt.Length && bt[..lastLen] == Flatten(parts[..i])
    modifies bt
    ensures bt[..lastLen + b.Length] == Flatten(parts[..i + 1])
  {
    ghost var before := bt[..];
    ArrayCopy(b, 0, bt, lastLen, b.Length);
    assert b[0..b.Length] == parts[i];
    MergeStep(before, bt[..], parts, i, lastLen);
  }

  /** Copying argument `i` right after the first `i` arguments extends the merged prefix by it. */
  lemma MergeStep(before: seq<Byte>, after: seq<Byte>, parts: seq<seq<Byte>>, i: nat, lastLen: nat)
    requires i < |parts| && lastLen + |parts[i]| <= |after|
    requires lastLen <= |before| && before[..lastLen] == Flatten(parts[..i])
    requires after[..lastLen] == before[..lastLen]
    requires after[lastLen..lastLen + |parts[i]|] == parts[i]
    ensures after[..lastLen + |parts[i]|] == Flatten(parts[..i + 1])
  {
    var next := lastLen + |parts[i]|;
    assert after[..next] == after[..lastLen] + after[lastLen..next];
    FlattenStep(parts, i);
  }

  lemma FlattenStep(parts: seq<seq<Byte>>, i: nat)
    requires i < |parts|
    ensures Flatten(parts[..i + 1]) == Flatten(parts[..i]) + parts[i]
  {
    assert parts[..i + 1] == parts[..i] + [parts[i]];
    FlattenSnoc(parts[..i], parts[i]);
  }

  lemma {:induction false} OffsetMonotone<T>(parts: seq<seq<T>>, k: nat, n: nat)
    requires k <= n <= |parts|
    ensures Offset(parts, k) <= Offset(parts, n)
    decreases n - k
  {
    if k < n {
      OffsetMonotone(parts, k + 1, n);
    }
  }
}
