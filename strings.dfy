/**
 * The java.lang.String operations the core relies on, with Java's semantics:
 * startsWith/endsWith/contains, indexOf, trim, replace and split (which drops
 * trailing empty strings).
 */
module Strings {

  predicate StartsWith(s: string, p: string) {
    |p| <= |s| && s[..|p|] == p
  }

  predicate EndsWith(s: string, p: string) {
    |p| <= |s| && s[|s| - |p|..] == p
  }

  /** `t` occurs in `s` starting at index `k`. */
  predicate OccursAt(s: string, t: string, k: int) {
    0 <= k && k + |t| <= |s| && s[k..k + |t|] == t
  }

  /** Java's `s.contains(t)`. */
  predicate Contains(s: string, t: string) {
    exists k | 0 <= k <= |s| - |t| :: OccursAt(s, t, k)
  }

  /** Java's `s.indexOf(t, from)` for a non-empty `t`: the first occurrence at or after `from`, or -1. */
  function IndexOfFrom(s: string, t: string, from: int): (r: int)
    requires |t| > 0
    ensures r == -1 || (r >= from && OccursAt(s, t, r))
    ensures r == -1 ==> forall k :: from <= k ==> !OccursAt(s, t, k)
    ensures r >= 0 ==> forall k :: from <= k < r ==> !OccursAt(s, t, k)
    decreases |s| - from
  {
    if from < 0 then IndexOfFrom(s, t, 0)
    else if from + |t| > |s| then -1
    else if s[from..from + |t|] == t then from
    else IndexOfFrom(s, t, from + 1)
  }

  /** Java's `s.indexOf(t)` for a non-empty `t`. */
  function IndexOf(s: string, t: string): (r: int)
    requires |t| > 0
    ensures r == -1 <==> !Contains(s, t)
    ensures r >= 0 ==> OccursAt(s, t, r) && forall k :: 0 <= k < r ==> !OccursAt(s, t, k)
  {
    IndexOfFrom(s, t, 0)
  }

  /** Java's `s.lastIndexOf(c)`. */
  function LastIndexOfChar(s: string, c: char): (r: int)
    ensures -1 <= r < |s|
    ensures r >= 0 ==> s[r] == c && forall k :: r < k < |s| ==> s[k] != c
    ensures r == -1 ==> c !in s
  {
    if s == [] then -1
    else if s[|s| - 1] == c then |s| - 1
    else LastIndexOfChar(s[..|s| - 1], c)
  }

  /** The characters Java's `trim` removes: every code point up to and including a space. */
  predicate IsTrimmed(c: char) {
    c <= ' '
  }

  /** Number of leading characters `trim` removes. */
  function Lead(s: string): (n: nat)
    ensures n <= |s|
    ensures forall k :: 0 <= k < n ==> IsTrimmed(s[k])
    ensures n < |s| ==> !IsTrimmed(s[n])
  {
    if s != [] && IsTrimmed(s[0]) then 1 + Lead(s[1..]) else 0
  }

  /** Number of trailing characters `trim` removes. */
  function Trail(s: string): (n: nat)
    ensures n <= |s|
    ensures forall k :: |s| - n <= k < |s| ==> IsTrimmed(s[k])
    ensures n < |s| ==> !IsTrimmed(s[|s| - n - 1])
  {
    if s != [] && IsTrimmed(s[|s| - 1]) then 1 + Trail(s[..|s| - 1]) else 0
  }

  /**
   * Java's `s.trim()`: the piece of `s` left after removing the leading and trailing
   * characters up to space; empty exactly when every character is such a character.
   */
  function Trim(s: string): (r: string)
    ensures r == [] <==> forall k :: 0 <= k < |s| ==> IsTrimmed(s[k])
    ensures r != [] ==> Lead(s) + |r| + Trail(s) == |s| && r == s[Lead(s)..Lead(s) + |r|]
    ensures r != [] ==> !IsTrimmed(r[0]) && !IsTrimmed(r[|r| - 1])
  {
    var i := Lead(s);
    var t := Trail(s);
    if i == |s| then []
    else
      assert !IsTrimmed(s[i]);
      s[i..|s| - t]
  }

  /** Java's `s.replace(a, b)` on single characters. */
  function ReplaceChar(s: string, a: char, b: char): (r: string)
    ensures |r| == |s|
    ensures forall k :: 0 <= k < |s| ==> r[k] == if s[k] == a then b else s[k]
  {
    seq(|s|, k requires 0 <= k < |s| => if s[k] == a then b else s[k])
  }

  /**
   * Java's `s.replace(t, r)`: every occurrence of `t`, scanning left to right
   * without overlap, is replaced by `r`. An empty `t` puts `r` around every character.
   */
  function Replace(s: string, t: string, r: string): string
    decreases |s|
  {
    if t == [] then
      if s == [] then r else r + [s[0]] + Replace(s[1..], t, r)
    else if |s| < |t| then s
    else if s[..|t|] == t then r + Replace(s[|t|..], t, r)
    else [s[0]] + Replace(s[1..], t, r)
  }

  /** Replacing a one-character string by another is replacing that character. */
  lemma {:induction false} ReplaceOneChar(s: string, a: char, b: char)
    ensures Replace(s, [a], [b]) == ReplaceChar(s, a, b)
    decreases |s|
  {
    if |s| >= 1 {
      ReplaceOneChar(s[1..], a, b);
      assert s[..1] == [s[0]];
      assert ReplaceChar(s, a, b) == [if s[0] == a then b else s[0]] + ReplaceChar(s[1..], a, b);
    }
  }

  /** With no occurrence of `t`, `Replace` leaves `s` unchanged. */
  lemma {:induction false} ReplaceAbsent(s: string, t: string, r: string)
    requires |t| > 0 && !Contains(s, t)
    ensures Replace(s, t, r) == s
    decreases |s|
  {
    if |s| >= |t| {
      assert !OccursAt(s, t, 0);
      assert !Contains(s[1..], t) by {
        forall k | 0 <= k <= |s[1..]| - |t| ensures !OccursAt(s[1..], t, k) {
          assert s[1..][k..k + |t|] == s[k + 1..k + 1 + |t|];
          assert !OccursAt(s, t, k + 1);
        }
      }
      ReplaceAbsent(s[1..], t, r);
    }
  }

  /**
   * When `t` occurs in `p + t` only at its end, replacing turns the trailing `t`
   * into `r` and keeps `p`.
   */
  lemma {:induction false} ReplaceSuffix(p: string, t: string, r: string)
    requires |t| > 0
    requires forall k :: 0 <= k < |p| ==> !OccursAt(p + t, t, k)
    ensures Replace(p + t, t, r) == p + r
    decreases |p|
  {
    if p == [] {
      assert p + t == t;
    } else {
      var s := p + t;
      assert !OccursAt(s, t, 0);
      assert s[1..] == p[1..] + t;
      forall k | 0 <= k < |p[1..]| ensures !OccursAt(p[1..] + t, t, k) {
        assert (p[1..] + t)[k..k + |t|] == s[k + 1..k + 1 + |t|];
        assert !OccursAt(s, t, k + 1);
      }
      ReplaceSuffix(p[1..], t, r);
      assert s[0] == p[0];
      assert [p[0]] + (p[1..] + r) == p + r;
    }
  }

  /**
   * When the first occurrence of `t` in `p + t + q` is the one right after `p`,
   * replacing keeps `p`, turns that occurrence into `r` and carries on in `q`.
   */
  lemma {:induction false} ReplaceFirst(p: string, t: string, q: string, r: string)
    requires |t| > 0
    requires forall k :: 0 <= k < |p| ==> !OccursAt(p + t + q, t, k)
    ensures Replace(p + t + q, t, r) == p + r + Replace(q, t, r)
    decreases |p|
  {
    var s := p + t + q;
    if p == [] {
      assert s == t + q;
      assert s[..|t|] == t && s[|t|..] == q;
    } else {
      assert !OccursAt(s, t, 0);
      NoEarlyOccurrenceTail(p, t, q);
      ReplaceFirst(p[1..], t, q, r);
      assert s[1..] == p[1..] + t + q;
      assert s[0] == p[0];
      assert [p[0]] + (p[1..] + r + Replace(q, t, r)) == p + r + Replace(q, t, r);
    }
  }

  /** No occurrence of `t` before the end of `p` in `p + t + q` means none before the end of `p[1..]` in its tail. */
  lemma NoEarlyOccurrenceTail(p: string, t: string, q: string)
    requires p != [] && forall k :: 0 <= k < |p| ==> !OccursAt(p + t + q, t, k)
    ensures forall k :: 0 <= k < |p[1..]| ==> !OccursAt(p[1..] + t + q, t, k)
  {
    var s := p + t + q;
    assert s[1..] == p[1..] + t + q;
    forall k | 0 <= k < |p[1..]| ensures !OccursAt(p[1..] + t + q, t, k) {
      assert (p[1..] + t + q)[k..k + |t|] == s[k + 1..k + 1 + |t|];
      assert !OccursAt(s, t, k + 1);
    }
  }

  /** Every piece between occurrences of `d`, including trailing empty pieces. */
  function SplitAll(s: string, d: string): (parts: seq<string>)
    requires |d| > 0
    ensures |parts| >= 1
    decreases |s|
  {
    var k := IndexOf(s, d);
    if k < 0 then [s] else [s[..k]] + SplitAll(s[k + |d|..], d)
  }

  /** The pieces joined back with `d` between them. */
  function Join(parts: seq<string>, d: string): string
  {
    if parts == [] then [] else if |parts| == 1 then parts[0] else parts[0] + d + Join(parts[1..], d)
  }

  /** Splitting loses nothing: joining the pieces with the delimiter gives back the string. */
  lemma {:induction false} SplitAllJoin(s: string, d: string)
    requires |d| > 0
    ensures Join(SplitAll(s, d), d) == s
    decreases |s|
  {
    var k := IndexOf(s, d);
    if k >= 0 {
      var rest := s[k + |d|..];
      var parts := SplitAll(rest, d);
      SplitAllJoin(rest, d);
      assert SplitAll(s, d) == [s[..k]] + parts;
      assert ([s[..k]] + parts)[1..] == parts;
      assert Join([s[..k]] + parts, d) == s[..k] + d + Join(parts, d);
      assert s[k..k + |d|] == d;
      assert s == s[..k] + s[k..k + |d|] + rest;
    }
  }

  /** No piece of a split contains the delimiter. */
  lemma {:induction false} SplitAllPieces(s: string, d: string)
    requires |d| > 0
    ensures forall i :: 0 <= i < |SplitAll(s, d)| ==> !Contains(SplitAll(s, d)[i], d)
    decreases |s|
  {
    var k := IndexOf(s, d);
    if k >= 0 {
      SplitAllPieces(s[k + |d|..], d);
      var head := s[..k];
      forall j | 0 <= j <= |head| - |d| ensures !OccursAt(head, d, j) {
        assert head[j..j + |d|] == s[j..j + |d|];
        assert !OccursAt(s, d, j);
      }
    }
  }

  function DropTrailingEmpty(parts: seq<string>): (r: seq<string>)
    ensures |r| <= |parts| && r == parts[..|r|]
    ensures r != [] ==> r[|r| - 1] != []
    ensures forall i :: |r| <= i < |parts| ==> parts[i] == []
  {
    if parts != [] && parts[|parts| - 1] == [] then DropTrailingEmpty(parts[..|parts| - 1]) else parts
  }

  /**
   * Java's `s.split(d)` for a literal delimiter: a string without `d` gives `[s]`;
   * otherwise the pieces between occurrences, with trailing empty pieces removed.
   */
  function Split(s: string, d: string): seq<string>
    requires |d| > 0
  {
    if IndexOf(s, d) < 0 then [s] else DropTrailingEmpty(SplitAll(s, d))
  }

  /** The pieces Java keeps are the leading pieces of the full split; only empty ones are dropped. */
  lemma SplitIsPrefix(s: string, d: string)
    requires |d| > 0
    ensures |Split(s, d)| <= |SplitAll(s, d)|
    ensures Split(s, d) == SplitAll(s, d)[..|Split(s, d)|]
    ensures forall i :: |Split(s, d)| <= i < |SplitAll(s, d)| ==> SplitAll(s, d)[i] == []
  {
  }

  /** A string without the delimiter splits into itself alone. */
  lemma SplitAbsent(s: string, d: string)
    requires |d| > 0 && !Contains(s, d)
    ensures Split(s, d) == [s]
  {
  }

  /** `x + d` with `d` absent from `x` splits into at most `[x]`: the trailing empty piece is dropped. */
  lemma SplitTrailingDelimiter(x: string, c: char)
    requires c !in x
    ensures Split(x + [c], [c]) == if x == [] then [] else [x]
  {
    var s := x + [c];
    assert OccursAt(s, [c], |x|);
    forall k | 0 <= k < |x| ensures !OccursAt(s, [c], k) {
      assert s[k..k + 1] == [x[k]];
    }
    assert IndexOf(s, [c]) == |x|;
    assert s[|x| + 1..] == [];
    assert s[..|x|] == x;
    assert IndexOf([], [c]) == -1;
    assert SplitAll([], [c]) == [[]];
    assert SplitAll(s, [c]) == [x] + SplitAll([], [c]);
    assert SplitAll(s, [c]) == [x, []];
    assert [x, []][..1] == [x];
    if x == [] {
      assert DropTrailingEmpty([[]]) == [];
    } else {
      assert DropTrailingEmpty([x]) == [x];
    }
  }
  /** The first occurrence of a one-char delimiter is the first position holding it. */
  lemma FirstDelimiter(x: string, c: char, rest: string)
    requires c !in x
    ensures IndexOf(x + [c] + rest, [c]) == |x|
  {
    var s := x + [c] + rest;
    assert OccursAt(s, [c], |x|);
    forall k | 0 <= k < |x| ensures !OccursAt(s, [c], k) {
      assert s[k..k + 1] == [x[k]];
    }
  }

  /** Splitting at the first one-char delimiter: the piece before it, then the split of the rest. */
  lemma SplitAllFirst(x: string, c: char, rest: string)
    requires c !in x
    ensures SplitAll(x + [c] + rest, [c]) == [x] + SplitAll(rest, [c])
  {
    var s := x + [c] + rest;
    FirstDelimiter(x, c, rest);
    assert s[..|x|] == x && s[|x| + 1..] == rest;
  }

  /** A string without the one-char delimiter is its own only piece. */
  lemma SplitAllNone(v: string, c: char)
    requires c !in v
    ensures SplitAll(v, [c]) == [v]
  {
    forall k | 0 <= k < |v| ensures !OccursAt(v, [c], k) {
      assert v[k..k + 1] == [v[k]];
    }
  }

  /** `k + c + v`, with `c` in neither part and `v` non-empty, splits into exactly `[k, v]`. */
  lemma SplitPair(k: string, v: string, c: char)
    requires c !in k && c !in v && v != []
    ensures Split(k + [c] + v, [c]) == [k, v]
  {
    var s := k + [c] + v;
    FirstDelimiter(k, c, v);
    SplitAllFirst(k, c, v);
    SplitAllNone(v, c);
    assert DropTrailingEmpty([k, v]) == [k, v];
  }

  lemma DropLastEmpty(k: string, v: string)
    requires v != []
    ensures DropTrailingEmpty([k, v, []]) == [k, v]
  {
    assert [k, v, []][..2] == [k, v];
    assert DropTrailingEmpty([k, v]) == [k, v];
  }

  /** A trailing one-char delimiter leaves an empty last piece. */
  lemma SplitAllTrailing(v: string, c: char)
    requires c !in v
    ensures SplitAll(v + [c], [c]) == [v, []]
  {
    SplitAllFirst(v, c, []);
    assert v + [c] + [] == v + [c];
    SplitAllNone([], c);
  }

  lemma SplitAllPairTrailing(k: string, v: string, c: char)
    requires c !in k && c !in v
    ensures SplitAll(k + [c] + (v + [c]), [c]) == [k, v, []]
  {
    SplitAllTrailing(v, c);
    SplitAllFirst(k, c, v + [c]);
  }

  /** A delimiter right after the pair adds only a trailing empty piece, which Java drops. */
  lemma SplitPairTrailing(k: string, v: string, c: char)
    requires c !in k && c !in v && v != []
    ensures Split(k + [c] + (v + [c]), [c]) == [k, v]
  {
    FirstDelimiter(k, c, v + [c]);
    SplitAllPairTrailing(k, v, c);
    DropLastEmpty(k, v);
  }

  /** Java's split: no piece holds the delimiter, and only a lone piece can be empty at the end. */
  lemma SplitPieces(s: string, d: string)
    requires |d| > 0
    ensures forall i :: 0 <= i < |Split(s, d)| ==> !Contains(Split(s, d)[i], d)
    ensures Split(s, d) != [] && Split(s, d)[|Split(s, d)| - 1] == [] ==> Split(s, d) == [[]]
  {
    SplitAllPieces(s, d);
    SplitIsPrefix(s, d);
  }
}
