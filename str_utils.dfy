/**
 * `StrUtils`: comma-list parsing, char-array merging and comparison, substring
 * search, manifest-line insertion and the include/exclude pattern matching.
 */
module StrUtils {
  import opened Wrappers
  import opened Seqs
  import opened Strings

  // ---------------------------------------------------------------- toList

  /** The trimmed pieces that are not empty, in order. */
  function TrimmedNonEmpty(pieces: seq<string>): seq<string>
  {
    if pieces == [] then []
    else
      var t := Trim(pieces[|pieces| - 1]);
      TrimmedNonEmpty(pieces[..|pieces| - 1]) + (if t != [] then [t] else [])
  }

  /** One more piece adds its trimmed text when that is not empty. */
  lemma TrimmedNonEmptyStep(pieces: seq<string>, i: nat)
    requires i < |pieces|
    ensures TrimmedNonEmpty(pieces[..i + 1]) ==
      TrimmedNonEmpty(pieces[..i]) + (if Trim(pieces[i]) != [] then [Trim(pieces[i])] else [])
  {
    assert pieces[..i + 1][..i] == pieces[..i];
  }

  /** What `toList` returns: null gives no items, otherwise the trimmed non-empty comma-separated pieces. */
  function ToListOf(str: Option<string>): seq<string>
  {
    if str.None? then [] else TrimmedNonEmpty(Split(str.value, ","))
  }

  /** `toList(str)`: split on ",", trim each piece, keep the non-empty ones. */
  method ToList(str: Option<string>) returns (list: seq<string>)
    ensures list == ToListOf(str)
    ensures str.None? ==> list == []
  {
    list := [];
    if str.Some? {
      var split := Split(str.value, ",");
      var i := 0;
      while i < |split|
        invariant 0 <= i <= |split|
        invariant list == TrimmedNonEmpty(split[..i])
      {
        var s := Trim(split[i]);
        TrimmedNonEmptyStep(split, i);
        if |s| > 0 {
          list := list + [s];
        }
        i := i + 1;
      }
      assert split[..|split|] == split;
    }
  }

  /** Trimming a trimmed string changes nothing. */
  lemma TrimIdempotent(s: string)
    ensures Trim(Trim(s)) == Trim(s)
  {
    var r := Trim(s);
    if r != [] {
      assert Lead(r) == 0;
      assert Trail(r) == 0;
    }
  }

  /** A trimmed piece is a substring of the piece, so it cannot contain what the piece lacks. */
  lemma TrimmedPiece(p: string, d: string)
    requires |d| > 0 && !Contains(p, d)
    ensures Trim(Trim(p)) == Trim(p) && !Contains(Trim(p), d)
  {
    var t := Trim(p);
    TrimIdempotent(p);
    if Contains(t, d) {
      var k :| 0 <= k <= |t| - |d| && OccursAt(t, d, k);
      var i := Lead(p);
      assert t != [] && t == p[i..i + |t|];
      OccursInSlice(p, i, i + |t|, d, k);
    }
  }

  /** An occurrence inside a slice is an occurrence in the whole string. */
  lemma OccursInSlice(p: string, i: nat, j: nat, d: string, k: int)
    requires i <= j <= |p| && OccursAt(p[i..j], d, k)
    ensures OccursAt(p, d, i + k)
  {
    var q := p[i..j];
    assert q[k..k + |d|] == d;
    forall m | 0 <= m < |d| ensures p[i + k..i + k + |d|][m] == d[m] {
      assert d[m] == q[k + m] == p[i + k + m];
    }
  }

  lemma {:induction false} TrimmedNonEmptyItems(pieces: seq<string>, d: string)
    requires |d| > 0
    requires forall i :: 0 <= i < |pieces| ==> !Contains(pieces[i], d)
    ensures forall j :: 0 <= j < |TrimmedNonEmpty(pieces)| ==>
      var e := TrimmedNonEmpty(pieces)[j]; e != [] && Trim(e) == e && !Contains(e, d)
  {
    if pieces != [] {
      var init := pieces[..|pieces| - 1];
      var p := pieces[|pieces| - 1];
      TrimmedNonEmptyItems(init, d);
      TrimmedPiece(p, d);
      var t := Trim(p);
      var front := TrimmedNonEmpty(init);
      var last := if t != [] then [t] else [];
      assert TrimmedNonEmpty(pieces) == front + last;
      forall j | 0 <= j < |front + last|
        ensures var e := (front + last)[j]; e != [] && Trim(e) == e && !Contains(e, d)
      {
        if j < |front| {
          assert (front + last)[j] == front[j];
        } else {
          assert (front + last)[j] == t;
        }
      }
    }
  }

  /** Every item of `toList` is non-empty, already trimmed, and holds no comma. */
  lemma ToListItems(str: Option<string>)
    ensures forall j :: 0 <= j < |ToListOf(str)| ==>
      var e := ToListOf(str)[j]; e != [] && Trim(e) == e && !Contains(e, ",")
  {
    if str.Some? {
      var s := str.value;
      SplitIsPrefix(s, ",");
      SplitAllPieces(s, ",");
      var pieces := Split(s, ",");
      if IndexOf(s, ",") < 0 {
        assert pieces == [s];
      }
      TrimmedNonEmptyItems(pieces, ",");
    }
  }

  // ---------------------------------------------------------------- isEmpty

  /** `isEmpty`: null or of length 0. */
  predicate IsEmpty(str: Option<string>) {
    str.None? || |str.value| == 0
  }

  predicate IsNotEmpty(str: Option<string>) {
    !IsEmpty(str)
  }

  // ---------------------------------------------------------------- merger

  /** `merger(char[]...)`: appends every argument to a StringBuilder, in argument order. */
  method Merger(bts: seq<string>) returns (chars: string)
    ensures chars == Flatten(bts)
    ensures |chars| == Offset(bts, |bts|)
  {
    var sb := [];
    var i := 0;
    while i < |bts|
      invariant 0 <= i <= |bts|
      invariant sb == Flatten(bts[..i])
    {
      assert bts[..i + 1] == bts[..i] + [bts[i]];
      FlattenSnoc(bts[..i], bts[i]);
      sb := sb + bts[i];
      i := i + 1;
    }
    assert bts[..|bts|] == bts;
    chars := sb;
    FlattenLength(bts);
  }

  // ---------------------------------------------------------------- equals

  /** `equals(cs1, cs2)`: same length and the same char at every index; stops at the first mismatch. */
  method Equals(cs1: string, cs2: string) returns (r: bool)
    ensures r <==> cs1 == cs2
    ensures !r && |cs1| == |cs2| ==> exists i :: 0 <= i < |cs1| && cs1[i] != cs2[i]
  {
    if |cs1| != |cs2| {
      return false;
    }
    var i := 0;
    while i < |cs1|
      invariant 0 <= i <= |cs1|
      invariant cs1[..i] == cs2[..i]
    {
      if cs1[i] != cs2[i] {
        return false;
      }
      assert cs1[..i + 1] == cs1[..i] + [cs1[i]];
      assert cs2[..i + 1] == cs2[..i] + [cs2[i]];
      i := i + 1;
    }
    assert cs1 == cs1[..i] && cs2 == cs2[..i];
    return true;
  }

  // ---------------------------------------------------------------- containsAny

  /** `containsAny(str, items...)`: some element of `items` is a substring of `str`. */
  method ContainsAny(str: string, items: seq<string>) returns (r: bool)
    ensures r <==> exists i :: 0 <= i < |items| && Contains(str, items[i])
  {
    for i := 0 to |items|
      invariant forall j :: 0 <= j < i ==> !Contains(str, items[j])
    {
      if Contains(str, items[i]) {
        return true;
      }
    }
    return false;
  }

  // ---------------------------------------------------------------- insertBefore

  /** Index of the first element satisfying `filter`, or `|items|` if there is none. */
  function FirstMatch(items: seq<string>, filter: string -> bool): (k: nat)
    ensures k <= |items|
    ensures forall j :: 0 <= j < k ==> !filter(items[j])
    ensures k < |items| ==> filter(items[k])
  {
    if items == [] then 0
    else if filter(items[0]) then 0
    else 1 + FirstMatch(items[1..], filter)
  }

  /** The lines `insertBefore` emits: `insert` placed before the first match, or last. */
  function InsertedLines(items: seq<string>, insert: string, filter: string -> bool): (lines: seq<string>)
    ensures |lines| == |items| + 1
    ensures var k := FirstMatch(items, filter);
      lines[k] == insert && lines[..k] + lines[k + 1..] == items
  {
    var k := FirstMatch(items, filter);
    var lines := items[..k] + [insert] + items[k..];
    assert lines[..k] == items[..k] && lines[k + 1..] == items[k..];
    lines
  }

  /** Inserting a line keeps every line free of `d`; the last line is the last item once a match was found, else the insert. */
  lemma InsertedLinesKeep(items: seq<string>, insert: string, filter: string -> bool, d: string)
    requires !Contains(insert, d)
    requires forall i :: 0 <= i < |items| ==> !Contains(items[i], d)
    ensures forall i :: 0 <= i < |InsertedLines(items, insert, filter)| ==> !Contains(InsertedLines(items, insert, filter)[i], d)
    ensures InsertedLines(items, insert, filter)[|items|] ==
      if FirstMatch(items, filter) < |items| then items[|items| - 1] else insert
  {
    var k := FirstMatch(items, filter);
    var lines := InsertedLines(items, insert, filter);
    var rest := lines[..k] + lines[k + 1..];
    forall i | 0 <= i < |lines| ensures !Contains(lines[i], d) {
      if i < k {
        assert lines[i] == rest[i];
      } else if i > k {
        assert lines[i] == rest[i - 1];
      }
    }
    if k < |items| {
      assert lines[|items|] == rest[|items| - 1];
    }
  }

  /** Each line followed by "\r\n". */
  function CrlfLines(lines: seq<string>): string
  {
    Flatten(seq(|lines|, i requires 0 <= i < |lines| => lines[i] + "\r\n"))
  }

  lemma CrlfLinesSnoc(lines: seq<string>, l: string)
    ensures CrlfLines(lines + [l]) == CrlfLines(lines) + l + "\r\n"
  {
    var a := seq(|lines|, i requires 0 <= i < |lines| => lines[i] + "\r\n");
    var b := seq(|lines + [l]|, i requires 0 <= i < |lines + [l]| => (lines + [l])[i] + "\r\n");
    assert b == a + [l + "\r\n"];
    FlattenSnoc(a, l + "\r\n");
  }

  /** A line without a carriage return holds no line end. */
  lemma NoCrNoCrlf(s: string)
    requires '\r' !in s
    ensures !Contains(s, "\r\n")
  {
    forall k | 0 <= k <= |s| - 2 ensures !OccursAt(s, "\r\n", k) {
      assert s[k..k + 2][0] == s[k];
    }
  }

  /** The first line end of `x + "\r\n" + rest` is the one after `x` when `x` holds none. */
  lemma FirstCrlf(x: string, rest: string)
    requires !Contains(x, "\r\n")
    ensures IndexOf(x + "\r\n" + rest, "\r\n") == |x|
  {
    var s := x + "\r\n" + rest;
    assert s[|x|..|x| + 2] == "\r\n";
    assert OccursAt(s, "\r\n", |x|);
    forall k | 0 <= k < |x| ensures !OccursAt(s, "\r\n", k) {
      if k + 1 < |x| {
        assert s[k..k + 2] == x[k..k + 2];
        assert !OccursAt(x, "\r\n", k);
      } else {
        assert s[k + 1] == '\r';
        assert s[k..k + 2][1] == '\r';
      }
    }
  }

  /** The first piece of a split at CRLF is the text before the first line end. */
  lemma SplitAllAfterLine(l: string, rest: string)
    requires !Contains(l, "\r\n")
    ensures SplitAll(l + "\r\n" + rest, "\r\n") == [l] + SplitAll(rest, "\r\n")
  {
    var s := l + "\r\n" + rest;
    FirstCrlf(l, rest);
    assert s[..|l|] == l && s[|l| + 2..] == rest;
  }

  /** One more line at the end of the lines keeps the split of CRLF-ended lines in step. */
  lemma SplitAllCrlfStep(init: seq<string>, l: string, rest: string)
    requires !Contains(l, "\r\n")
    requires SplitAll(CrlfLines(init) + (l + "\r\n" + rest), "\r\n") == init + SplitAll(l + "\r\n" + rest, "\r\n")
    ensures SplitAll(CrlfLines(init + [l]) + rest, "\r\n") == (init + [l]) + SplitAll(rest, "\r\n")
  {
    CrlfLinesSnocRest(init, l, rest);
    SplitAllAfterLine(l, rest);
    var after := SplitAll(rest, "\r\n");
    assert init + ([l] + after) == (init + [l]) + after;
  }

  lemma CrlfLinesSnocRest(init: seq<string>, l: string, rest: string)
    ensures CrlfLines(init + [l]) + rest == CrlfLines(init) + (l + "\r\n" + rest)
  {
    CrlfLinesSnoc(init, l);
    var before := CrlfLines(init);
    assert before + l + "\r\n" + rest == before + (l + "\r\n" + rest);
  }

  /** Splitting CRLF-ended lines gives the lines back, followed by the pieces of what comes after. */
  lemma {:induction false} SplitAllCrlfLines(lines: seq<string>, rest: string)
    requires forall i :: 0 <= i < |lines| ==> !Contains(lines[i], "\r\n")
    ensures SplitAll(CrlfLines(lines) + rest, "\r\n") == lines + SplitAll(rest, "\r\n")
    decreases |lines|
  {
    if lines == [] {
      assert CrlfLines(lines) == [];
      assert CrlfLines(lines) + rest == rest;
    } else {
      var init := lines[..|lines| - 1];
      var l := lines[|lines| - 1];
      assert lines == init + [l];
      SplitAllCrlfLines(init, l + "\r\n" + rest);
      SplitAllCrlfStep(init, l, rest);
    }
  }

  /** Two bare line ends split into three empty pieces. */
  lemma SplitAllTwoCrlf()
    ensures SplitAll("\r\n\r\n", "\r\n") == [[], [], []]
  {
    NoCrNoCrlf([]);
    SplitAllAfterLine([], "\r\n");
    SplitAllAfterLine([], []);
    assert [] + "\r\n" + "\r\n" == "\r\n\r\n";
    assert [] + "\r\n" + [] == "\r\n";
    assert SplitAll([], "\r\n") == [[]];
  }

  /** Java drops the three empty pieces after a non-empty last line. */
  lemma DropThreeEmpty(lines: seq<string>)
    requires lines != [] && lines[|lines| - 1] != []
    ensures DropTrailingEmpty(lines + [[], [], []]) == lines
  {
    var all := lines + [[], [], []];
    assert all[..|all| - 1] == lines + [[], []];
    assert (lines + [[], []])[..|lines| + 1] == lines + [[]];
    assert (lines + [[]])[..|lines|] == lines;
  }

  /**
   * Java's `split("\r\n")` of CRLF-ended lines followed by two more line
   * ends gives the lines back when the last one is not empty: the empty
   * pieces at the end are dropped.
   */
  lemma SplitCrlfLines(lines: seq<string>)
    requires lines != [] && lines[|lines| - 1] != []
    requires forall i :: 0 <= i < |lines| ==> !Contains(lines[i], "\r\n")
    ensures Split(CrlfLines(lines) + "\r\n\r\n", "\r\n") == lines
  {
    var text := CrlfLines(lines) + "\r\n\r\n";
    SplitAllTwoCrlf();
    SplitAllCrlfLines(lines, "\r\n\r\n");
    assert SplitAll(text, "\r\n") == lines + [[], [], []];
    assert IndexOf(text, "\r\n") >= 0;
    DropThreeEmpty(lines);
  }

  /**
   * `insertBefore(items, insert, filter)`: every element followed by "\r\n", with
   * `insert` + "\r\n" written once, before the first element the filter accepts,
   * or at the end when none does.
   */
  method InsertBefore(items: seq<string>, insert: string, filter: string -> bool) returns (r: string)
    ensures r == CrlfLines(InsertedLines(items, insert, filter))
  {
    var sb := "";
    var inserted := false;
    ghost var k := FirstMatch(items, filter);
    ghost var emitted: seq<string> := [];
    for i := 0 to |items|
      invariant inserted <==> k < i
      invariant emitted == if inserted then items[..k] + [insert] + items[k..i] else items[..i]
      invariant sb == CrlfLines(emitted)
    {
      if !inserted && filter(items[i]) {
        CrlfLinesSnoc(emitted, insert);
        sb := sb + insert + "\r\n";
        emitted := emitted + [insert];
        inserted := true;
        assert items[k..i] == [];
      }
      CrlfLinesSnoc(emitted, items[i]);
      sb := sb + items[i] + "\r\n";
      emitted := emitted + [items[i]];
      if inserted {
        SliceSnoc(items, k, i);
      } else {
        TakeSnoc(items, i);
      }
    }
    if !inserted {
      CrlfLinesSnoc(emitted, insert);
      sb := sb + insert + "\r\n";
      emitted := emitted + [insert];
      assert items[..|items|] == items;
      assert items[k..] == [];
    } else {
      assert items[k..|items|] == items[k..];
    }
    assert emitted == InsertedLines(items, insert, filter);
    r := sb;
  }

  // ---------------------------------------------------------------- isMatch

  /**
   * The regular expression `isMatch` builds: "?" becomes "(.?)", a run of "*"
   * becomes "(.*?)", "." keeps its regex meaning, other characters are literal.
   */
  datatype Token = Lit(c: char) | AnyChar | OptionalChar | AnyRun

  /** The characters a regex "." does not match. */
  predicate IsLineTerminator(c: char) {
    c == '\n' || c == '\r' || c == '\U{85}' || c == '\U{2028}' || c == '\U{2029}'
  }

  predicate NoLineTerminator(s: string) {
    forall k :: 0 <= k < |s| ==> !IsLineTerminator(s[k])
  }

  /** Number of leading '*' characters. */
  function StarRun(p: string): (n: nat)
    ensures n <= |p|
    ensures forall k :: 0 <= k < n ==> p[k] == '*'
    ensures n < |p| ==> p[n] != '*'
  {
    if p != [] && p[0] == '*' then 1 + StarRun(p[1..]) else 0
  }

  function Compile(p: string): seq<Token>
    decreases |p|
  {
    if p == [] then []
    else if p[0] == '?' then [OptionalChar] + Compile(p[1..])
    else if p[0] == '*' then [AnyRun] + Compile(p[StarRun(p)..])
    else if p[0] == '.' then [AnyChar] + Compile(p[1..])
    else [Lit(p[0])] + Compile(p[1..])
  }

  /** Whole-string match of `s` against the tokens (Java's `Pattern.matches`). */
  function Matches(toks: seq<Token>, s: string): bool
    decreases |toks|, |s|
  {
    if toks == [] then s == []
    else match toks[0]
      case Lit(c) => s != [] && s[0] == c && Matches(toks[1..], s[1..])
      case AnyChar => s != [] && !IsLineTerminator(s[0]) && Matches(toks[1..], s[1..])
      case OptionalChar =>
        Matches(toks[1..], s) || (s != [] && !IsLineTerminator(s[0]) && Matches(toks[1..], s[1..]))
      case AnyRun =>
        Matches(toks[1..], s) || (s != [] && !IsLineTerminator(s[0]) && Matches(toks, s[1..]))
  }

  /** `isMatch(match, testString)`: the wildcard pattern matches the whole test string. */
  predicate IsMatch(pattern: string, testString: string) {
    Matches(Compile(pattern), testString)
  }

  /** A run of "*" absorbs any text without line terminators in front of what follows. */
  lemma {:induction false} AnyRunAbsorbs(rest: seq<Token>, u: string, v: string)
    requires NoLineTerminator(u) && Matches(rest, v)
    ensures Matches([AnyRun] + rest, u + v)
    decreases |u|
  {
    var toks := [AnyRun] + rest;
    assert toks[1..] == rest;
    if u == [] {
      assert u + v == v;
    } else {
      AnyRunAbsorbs(rest, u[1..], v);
      assert (u + v)[1..] == u[1..] + v;
      assert (u + v)[0] == u[0];
    }
  }

  /** Everything an "*"-run matches is free of line terminators. */
  lemma {:induction false} AnyRunOnly(rest: seq<Token>, s: string)
    requires rest == [] && Matches([AnyRun] + rest, s)
    ensures NoLineTerminator(s)
    decreases |s|
  {
    var toks := [AnyRun] + rest;
    assert toks[1..] == rest;
    if s != [] && !Matches(rest, s) {
      AnyRunOnly(rest, s[1..]);
      assert forall k :: 1 <= k < |s| ==> s[k] == s[1..][k - 1];
    }
  }

  /** "*" matches exactly the strings without line terminators. */
  lemma StarMatches(t: string)
    ensures IsMatch("*", t) <==> NoLineTerminator(t)
  {
    assert "*"[1..] == [];
    assert StarRun("*") == 1;
    assert Compile("*") == [AnyRun] + Compile([]);
    if NoLineTerminator(t) {
      assert t + [] == t;
      AnyRunAbsorbs([], t, []);
    }
    if IsMatch("*", t) {
      AnyRunOnly([], t);
    }
  }

  /** "?" matches the empty string and every single character other than a line terminator. */
  lemma QuestionMarkMatches(t: string)
    ensures IsMatch("?", t) <==> |t| <= 1 && NoLineTerminator(t)
  {
    assert "?"[1..] == [];
    assert Compile("?") == [OptionalChar] + Compile([]);
    var toks := [OptionalChar];
    assert toks[1..] == [];
    assert IsMatch("?", t) == (Matches([], t) || (t != [] && !IsLineTerminator(t[0]) && Matches([], t[1..])));
  }

  /** "." matches exactly one character other than a line terminator. */
  lemma DotMatches(t: string)
    ensures IsMatch(".", t) <==> |t| == 1 && !IsLineTerminator(t[0])
  {
    assert "."[1..] == [];
    assert Compile(".") == [AnyChar] + Compile([]);
    var toks := [AnyChar];
    assert toks[1..] == [];
    assert IsMatch(".", t) == (t != [] && !IsLineTerminator(t[0]) && Matches([], t[1..]));
  }

  /** A pattern always matches itself when the text has no line terminators. */
  lemma {:induction false} SelfMatch(p: string)
    requires NoLineTerminator(p)
    ensures IsMatch(p, p)
    decreases |p|
  {
    if p != [] {
      if p[0] == '*' {
        var n := StarRun(p);
        SelfMatch(p[n..]);
        assert p == p[..n] + p[n..];
        AnyRunAbsorbs(Compile(p[n..]), p[..n], p[n..]);
      } else {
        SelfMatch(p[1..]);
        var toks := Compile(p);
        assert toks[1..] == Compile(p[1..]);
      }
    }
  }

  /**
   * A literal prefix followed by "*", such as "com.demo.*", matches every
   * extension of that prefix without line terminators, such as "com.demo.sub.Bar".
   */
  lemma {:induction false} PrefixGlobMatches(p: string, t: string)
    requires NoLineTerminator(p) && NoLineTerminator(t)
    ensures IsMatch(p + "*", p + t)
    decreases |p|
  {
    if p == [] {
      assert p + "*" == "*" && p + t == t;
      StarMatches(t);
    } else if p[0] == '*' {
      var n := StarRun(p);
      var q := p + "*";
      if n == |p| {
        assert StarRun(q) == |q| by { StarRunAll(q); }
        assert q[|q|..] == [];
        assert Compile(q) == [AnyRun] + Compile([]);
        assert (p + t) + [] == p + t;
        AnyRunAbsorbs([], p + t, []);
      } else {
        assert StarRun(q) == n by { StarRunPrefix(p, "*"); }
        assert q[n..] == p[n..] + "*";
        PrefixGlobMatches(p[n..], t);
        assert p + t == p[..n] + (p[n..] + t);
        AnyRunAbsorbs(Compile(q[n..]), p[..n], p[n..] + t);
      }
    } else {
      var q := p + "*";
      assert q[1..] == p[1..] + "*";
      assert (p + t)[1..] == p[1..] + t;
      PrefixGlobMatches(p[1..], t);
      var toks := Compile(q);
      assert toks[1..] == Compile(q[1..]);
    }
  }

  lemma {:induction false} StarRunAll(q: string)
    requires forall k :: 0 <= k < |q| ==> q[k] == '*'
    ensures StarRun(q) == |q|
    decreases |q|
  {
    if q != [] {
      StarRunAll(q[1..]);
    }
  }

  lemma {:induction false} StarRunPrefix(p: string, q: string)
    requires StarRun(p) < |p|
    ensures StarRun(p + q) == StarRun(p)
    decreases |p|
  {
    if p[0] == '*' {
      assert (p + q)[1..] == p[1..] + q;
      StarRunPrefix(p[1..], q);
    }
  }

  // ---------------------------------------------------------------- isMatchAny

  /** One pattern selects the test string: glob match, or prefix, or suffix. */
  predicate Hits(m: string, testString: string) {
    IsMatch(m, testString) || StartsWith(testString, m) || EndsWith(testString, m)
  }

  /** Some pattern of the list hits the test string. */
  predicate AnyHits(ms: seq<string>, testString: string)
  {
    ms != [] && (Hits(ms[0], testString) || AnyHits(ms[1..], testString))
  }

  /** `AnyHits` holds exactly when some pattern of the list hits. */
  lemma {:induction false} AnyHitsExists(ms: seq<string>, testString: string)
    ensures AnyHits(ms, testString) <==> exists i :: 0 <= i < |ms| && Hits(ms[i], testString)
  {
    if ms != [] {
      AnyHitsExists(ms[1..], testString);
      if exists i :: 0 <= i < |ms| && Hits(ms[i], testString) {
        var i :| 0 <= i < |ms| && Hits(ms[i], testString);
        if i > 0 {
          assert ms[1..][i - 1] == ms[i];
        }
      }
      if exists i :: 0 <= i < |ms[1..]| && Hits(ms[1..][i], testString) {
        var i :| 0 <= i < |ms[1..]| && Hits(ms[1..][i], testString);
        assert ms[i + 1] == ms[1..][i];
      }
    }
  }

  /** What `isMatchAny` decides: `dv` for a null or empty list, otherwise whether some pattern hits. */
  predicate MatchAny(matches: Option<seq<string>>, testString: string, dv: bool) {
    if matches.None? || |matches.value| == 0 then dv
    else AnyHits(matches.value, testString)
  }

  /** `isMatchAny(matches, testString, dv)`: the first hitting pattern ends the loop with true. */
  method IsMatchAny(matches: Option<seq<string>>, testString: string, dv: bool) returns (r: bool)
    ensures r == MatchAny(matches, testString, dv)
    ensures matches.Some? && |matches.value| > 0 ==>
      (r <==> exists i :: 0 <= i < |matches.value| && Hits(matches.value[i], testString))
  {
    if matches.None? || |matches.value| == 0 {
      return dv;
    }
    var ms := matches.value;
    AnyHitsExists(ms, testString);
    for i := 0 to |ms|
      invariant forall j :: 0 <= j < i ==> !Hits(ms[j], testString)
    {
      var m := ms[i];
      if IsMatch(m, testString) || StartsWith(testString, m) || EndsWith(testString, m) {
        return true;
      }
    }
    return false;
  }

  /** A pattern equal to the test string always selects it, whatever the default. */
  lemma PatternSelectsItself(matches: seq<string>, testString: string, dv: bool)
    requires testString in matches
    ensures MatchAny(Some(matches), testString, dv)
  {
    var i :| 0 <= i < |matches| && matches[i] == testString;
    assert StartsWith(testString, matches[i]);
    AnyHitsExists(matches, testString);
  }
}
