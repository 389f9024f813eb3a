/**
 * `CmdLineOption`: the registry of known option names and the parser of
 * `name=value,value` arguments the command line of the encryptor is read with.
 * Option names are compared after their leading dashes are stripped, so `-pwd`,
 * `--pwd` and `pwd` are the same option. Java's `null` string is `None`.
 */
module CmdLine {
  import opened Wrappers
  import opened Strings
  import StrUtils

  // ---------------------------------------------------------------- resolveOption

  /** `s` without its leading dashes, or `None` when nothing else is left. */
  function Undash(s: string): (r: Option<string>)
    ensures r.None? <==> forall j :: 0 <= j < |s| ==> s[j] == '-'
    ensures r.Some? ==> r.value != [] && r.value[0] != '-'
    ensures r.Some? ==> |r.value| <= |s| && r.value == s[|s| - |r.value|..]
    ensures r.Some? ==> forall j :: 0 <= j < |s| - |r.value| ==> s[j] == '-'
  {
    if s == [] then None
    else if s[0] == '-' then Undash(s[1..])
    else Some(s)
  }

  /** The canonical name of an option: `null` and empty or all-dash names have none. */
  function Resolve(str: Option<string>): Option<string>
  {
    if StrUtils.IsNotEmpty(str) then Undash(str.value) else None
  }

  /** Resolving a resolved name changes nothing. */
  lemma ResolveIdempotent(str: Option<string>)
    ensures Resolve(Resolve(str)) == Resolve(str)
  {
    var r := Resolve(str);
    if r.Some? {
      assert r.value[0] != '-';
    }
  }

  /** Extra leading dashes do not change which option is meant. */
  lemma {:induction false} DashesIgnored(s: string, n: nat)
    ensures Resolve(Some(seq(n, _ => '-') + s)) == Resolve(Some(s))
  {
    if n > 0 {
      var t := seq(n, _ => '-') + s;
      assert t[0] == '-';
      assert t[1..] == seq(n - 1, _ => '-') + s;
      assert Undash(t) == Undash(t[1..]);
      DashesIgnored(s, n - 1);
    } else {
      assert seq(n, _ => '-') + s == s;
    }
  }

  /** Java's `resolveOption`: the name from its first character that is not a dash. */
  method ResolveOption(str: Option<string>) returns (r: Option<string>)
    ensures r == Resolve(str)
  {
    if StrUtils.IsNotEmpty(str) {
      var chars := str.value;
      for i := 0 to |chars|
        invariant Undash(chars[i..]) == Undash(chars)
      {
        if chars[i] != '-' {
          return Some(chars[i..]);
        }
        assert chars[i..][1..] == chars[i + 1..];
      }
      assert chars[|chars|..] == [];
    }
    return None;
  }

  // ---------------------------------------------------------------- parse

  /** The stored values of `name=v`: the comma-separated pieces of `v`, each trimmed. */
  function Values(v: string): (r: seq<string>)
    ensures |r| == |Split(v, [','])|
    ensures forall i :: 0 <= i < |r| ==> r[i] == Trim(Split(v, [','])[i])
  {
    var pieces := Split(v, [',']);
    seq(|pieces|, i requires 0 <= i < |pieces| => Trim(pieces[i]))
  }

  /** A value without commas is stored as its one trimmed piece. */
  lemma ValuesSingle(v: string)
    requires ',' !in v
    ensures Values(v) == [Trim(v)]
  {
    forall k | 0 <= k <= |v| - 1 ensures !OccursAt(v, [','], k) {
      assert v[k..k + 1] == [v[k]];
    }
    SplitAbsent(v, [',']);
  }

  /** A value that is a single comma stores no values at all. */
  lemma CommaOnlyValues()
    ensures Values([',']) == []
  {
    SplitTrailingDelimiter([], ',');
    assert [] + [','] == [','];
  }

  /**
   * The effect of one argument on the stored options: an argument that does not
   * split into exactly two pieces around `=`, whose name does not resolve, or whose
   * name is not registered, changes nothing; otherwise its values replace the name's.
   */
  function ParseArg(m: map<string, seq<string>>, options: seq<Option<string>>, arg: string): map<string, seq<string>>
  {
    var kvp := Split(arg, ['=']);
    if |kvp| != 2 then m
    else
      var option := Resolve(Some(kvp[0]));
      if StrUtils.IsEmpty(option) then m
      else if option in options then m[option.value := Values(kvp[1])]
      else m
  }

  /** The stored options after the arguments, taken in order. */
  function ParseAll(m: map<string, seq<string>>, options: seq<Option<string>>, args: seq<string>): map<string, seq<string>>
  {
    if args == [] then m
    else ParseArg(ParseAll(m, options, args[..|args| - 1]), options, args[|args| - 1])
  }

  /** Every name parsing stores is a registered one. */
  predicate Registered(m: map<string, seq<string>>, options: seq<Option<string>>)
  {
    forall k :: k in m ==> Some(k) in options
  }

  lemma {:induction false} ParseAllRegistered(m: map<string, seq<string>>, options: seq<Option<string>>, args: seq<string>)
    requires Registered(m, options)
    ensures Registered(ParseAll(m, options, args), options)
    ensures m.Keys <= ParseAll(m, options, args).Keys
  {
    if args != [] {
      ParseAllRegistered(m, options, args[..|args| - 1]);
    }
  }

  /** Parsing two argument lists one after the other is parsing their concatenation. */
  lemma {:induction false} ParseAllAppend(m: map<string, seq<string>>, options: seq<Option<string>>, a: seq<string>, b: seq<string>)
    ensures ParseAll(m, options, a + b) == ParseAll(ParseAll(m, options, a), options, b)
  {
    if b == [] {
      assert a + b == a;
    } else {
      assert (a + b)[..|a + b| - 1] == a + b[..|b| - 1];
      ParseAllAppend(m, options, a, b[..|b| - 1]);
    }
  }

  /** An argument without `=`, such as the bare flag `-Y`, never sets an option. */
  lemma BareFlagIgnored(m: map<string, seq<string>>, options: seq<Option<string>>, arg: string)
    requires '=' !in arg
    ensures ParseArg(m, options, arg) == m
  {
    forall k | 0 <= k <= |arg| - 1 ensures !OccursAt(arg, ['='], k) {
      assert arg[k..k + 1] == [arg[k]];
    }
    SplitAbsent(arg, ['=']);
  }

  /** An argument with nothing after its `=`, such as `pwd=`, never sets an option. */
  lemma EmptyValueIgnored(m: map<string, seq<string>>, options: seq<Option<string>>, name: string)
    requires '=' !in name
    ensures ParseArg(m, options, name + ['=']) == m
  {
    SplitTrailingDelimiter(name, '=');
  }

  /** An argument with more than one `=` in the middle, such as `a=b=c`, never sets an option. */
  lemma ThreePiecesIgnored(m: map<string, seq<string>>, options: seq<Option<string>>, a: string, b: string, c: string)
    requires '=' !in a && '=' !in b && '=' !in c && c != []
    ensures ParseArg(m, options, a + ['='] + (b + ['='] + c)) == m
  {
    SplitAllFirst(a, '=', b + ['='] + c);
    SplitAllFirst(b, '=', c);
    SplitAllNone(c, '=');
    FirstDelimiter(a, '=', b + ['='] + c);
    var parts := SplitAll(a + ['='] + (b + ['='] + c), ['=']);
    assert parts == [a, b, c];
    assert DropTrailingEmpty(parts) == parts;
  }

  /** `name=value` with a registered name stores the value's trimmed pieces under the name. */
  lemma PairStored(m: map<string, seq<string>>, options: seq<Option<string>>, name: string, v: string)
    requires '=' !in name && '=' !in v && v != []
    requires Resolve(Some(name)).Some? && Resolve(Some(name)) in options
    ensures ParseArg(m, options, name + ['='] + v) == m[Resolve(Some(name)).value := Values(v)]
  {
    SplitPair(name, v, '=');
  }

  /** `name=value` with a name that is not registered is ignored. */
  lemma UnregisteredIgnored(m: map<string, seq<string>>, options: seq<Option<string>>, name: string, v: string)
    requires '=' !in name && '=' !in v && v != []
    requires Resolve(Some(name)) !in options
    ensures ParseArg(m, options, name + ['='] + v) == m
  {
    SplitPair(name, v, '=');
  }

  /** A trailing `=`, as in `pwd=x=`, is dropped by the split, so the pair is still stored. */
  lemma TrailingEqualsAccepted(m: map<string, seq<string>>, options: seq<Option<string>>, name: string, v: string)
    requires '=' !in name && '=' !in v && v != []
    requires Resolve(Some(name)).Some? && Resolve(Some(name)) in options
    ensures ParseArg(m, options, name + ['='] + (v + ['='])) == m[Resolve(Some(name)).value := Values(v)]
  {
    SplitPairTrailing(name, v, '=');
  }

  /** The last occurrence of an option among the arguments decides its values. */
  lemma LastOccurrenceWins(m: map<string, seq<string>>, options: seq<Option<string>>, args: seq<string>,
                           name: string, v: string, later: seq<string>)
    requires '=' !in name && '=' !in v && v != []
    requires Resolve(Some(name)).Some? && Resolve(Some(name)) in options
    requires forall a :: a in later ==> '=' !in a
    ensures ParseAll(m, options, args + [name + ['='] + v] + later)
         == ParseAll(m, options, args)[Resolve(Some(name)).value := Values(v)]
  {
    var arg := name + ['='] + v;
    ParseAllAppend(m, options, args + [arg], later);
    ParseAllAppend(m, options, args, [arg]);
    assert ([] + [arg])[..0] == [];
    PairStored(ParseAll(m, options, args), options, name, v);
    FlagsIgnored(ParseAll(m, options, args + [arg]), options, later);
  }

  /** Arguments without `=` leave the stored options as they are. */
  lemma {:induction false} FlagsIgnored(m: map<string, seq<string>>, options: seq<Option<string>>, args: seq<string>)
    requires forall a :: a in args ==> '=' !in a
    ensures ParseAll(m, options, args) == m
  {
    if args != [] {
      var last := args[|args| - 1];
      assert last in args;
      FlagsIgnored(m, options, args[..|args| - 1]);
      BareFlagIgnored(m, options, last);
    }
  }

  // ---------------------------------------------------------------- getters

  /** `getOptionValues`: the values stored under the resolved name, or none. */
  function OptionValues(m: map<string, seq<string>>, opt: Option<string>): (r: seq<string>)
    ensures r != [] ==> Resolve(opt).Some? && Resolve(opt).value in m && r == m[Resolve(opt).value]
    ensures Resolve(opt).Some? && Resolve(opt).value in m ==> r == m[Resolve(opt).value]
  {
    var o := Resolve(opt);
    if o.Some? && o.value in m then m[o.value] else []
  }

  /** `getOptionValue`: the first stored value, or the default when none is stored. */
  function OptionValue(m: map<string, seq<string>>, opt: Option<string>, dv: Option<string>): (r: Option<string>)
    ensures OptionValues(m, opt) == [] ==> r == dv
    ensures OptionValues(m, opt) != [] ==> r == Some(OptionValues(m, opt)[0])
  {
    var values := OptionValues(m, opt);
    if |values| == 0 then dv else Some(values[0])
  }

  /** `hasOption`: whether parsing stored the resolved name. */
  predicate HasKey(m: map<string, seq<string>>, opt: Option<string>)
  {
    var o := Resolve(opt);
    o.Some? && o.value in m
  }

  /** After `name=,` the option is present but has no value, so the default is returned. */
  lemma CommaOnlyValue(m: map<string, seq<string>>, options: seq<Option<string>>, name: string, dv: Option<string>)
    requires '=' !in name
    requires Resolve(Some(name)).Some? && Resolve(Some(name)) in options
    ensures HasKey(ParseArg(m, options, name + ['='] + [',']), Some(name))
    ensures OptionValue(ParseArg(m, options, name + ['='] + [',']), Some(name), dv) == dv
  {
    PairStored(m, options, name, [',']);
    CommaOnlyValues();
  }

  /** After `name=value` the option is present and its values are the value's trimmed pieces. */
  lemma StoredPairRead(m: map<string, seq<string>>, options: seq<Option<string>>, name: string, v: string, spelled: Option<string>)
    requires '=' !in name && '=' !in v && v != []
    requires Resolve(Some(name)).Some? && Resolve(Some(name)) in options
    requires Resolve(spelled) == Resolve(Some(name))
    ensures HasKey(ParseArg(m, options, name + ['='] + v), spelled)
    ensures OptionValues(ParseArg(m, options, name + ['='] + v), spelled) == Values(v)
  {
    PairStored(m, options, name, v);
  }

  // ---------------------------------------------------------------- the registry

  /** No element occurs twice. */
  predicate Distinct<T(==)>(xs: seq<T>)
  {
    forall i, j :: 0 <= i < j < |xs| ==> xs[i] != xs[j]
  }

  /** Registering one more option keeps every stored key registered. */
  lemma RegisteredSnoc(m: map<string, seq<string>>, options: seq<Option<string>>, o: Option<string>)
    requires Registered(m, options)
    ensures Registered(m, options + [o])
  {
    forall k | k in m ensures Some(k) in options + [o] {
      assert Some(k) in options;
    }
  }

  lemma DistinctSnoc<T>(xs: seq<T>, x: T)
    requires Distinct(xs) && x !in xs
    ensures Distinct(xs + [x])
  {
    forall i, j | 0 <= i < j < |xs| + 1 ensures (xs + [x])[i] != (xs + [x])[j] {
      if j == |xs| {
        assert xs[i] in xs;
      }
    }
  }

  /** The registry's invariant over its four lists: parallel lists, names registered once, only registered names stored. */
  predicate Consistent(options: seq<Option<string>>, hasArgs: seq<bool>, descriptions: seq<string>, m: map<string, seq<string>>)
  {
    && |hasArgs| == |options|
    && |descriptions| == |options|
    && Distinct(options)
    && Registered(m, options)
  }

  /** Registering a new name keeps the registry consistent. */
  lemma ConsistentSnoc(options: seq<Option<string>>, hasArgs: seq<bool>, descriptions: seq<string>, m: map<string, seq<string>>,
                       o: Option<string>, hasArg: bool, description: string)
    requires Consistent(options, hasArgs, descriptions, m) && o !in options
    ensures Consistent(options + [o], hasArgs + [hasArg], descriptions + [description], m)
  {
    DistinctSnoc(options, o);
    RegisteredSnoc(m, options, o);
  }

  class CmdLineOption {
    var options: seq<Option<string>>
    var hasArgs: seq<bool>
    var descriptions: seq<string>
    var optionsMap: map<string, seq<string>>

    /** The three lists run in parallel, names are registered once, and only registered names are stored. */
    ghost predicate Valid()
      reads this
    {
      Consistent(options, hasArgs, descriptions, optionsMap)
    }

    constructor()
      ensures Valid()
      ensures options == [] && hasArgs == [] && descriptions == [] && optionsMap == map[]
    {
      options := [];
      hasArgs := [];
      descriptions := [];
      optionsMap := map[];
    }

    /** `addOption`: registers the resolved name unless it is already registered. */
    method AddOption(opt: Option<string>, hasArg: bool, description: string) returns (self: CmdLineOption)
      requires Valid()
      modifies this
      ensures Valid() && self == this
      ensures Resolve(opt) in old(options) ==>
        options == old(options) && hasArgs == old(hasArgs) && descriptions == old(descriptions)
      ensures Resolve(opt) !in old(options) ==>
        && options == old(options) + [Resolve(opt)]
        && hasArgs == old(hasArgs) + [hasArg]
        && descriptions == old(descriptions) + [description]
      ensures optionsMap == old(optionsMap)
    {
      var o := ResolveOption(opt);
      if o !in options {
        Register(o, hasArg, description);
      }
      self := this;
    }

    /** The registering half of `addOption`: a name not yet registered joins the three lists. */
    method Register(o: Option<string>, hasArg: bool, description: string)
      requires Valid() && o !in options
      modifies this
      ensures Valid()
      ensures options == old(options) + [o] && hasArgs == old(hasArgs) + [hasArg]
      ensures descriptions == old(descriptions) + [description] && optionsMap == old(optionsMap)
    {
      ConsistentSnoc(options, hasArgs, descriptions, optionsMap, o, hasArg, description);
      options, hasArgs, descriptions := options + [o], hasArgs + [hasArg], descriptions + [description];
    }

    /** `parse`: applies every argument in order. */
    method Parse(args: seq<string>) returns (self: CmdLineOption)
      requires Valid()
      modifies this
      ensures Valid() && self == this
      ensures options == old(options) && hasArgs == old(hasArgs) && descriptions == old(descriptions)
      ensures optionsMap == ParseAll(old(optionsMap), options, args)
    {
      self := this;
      for i := 0 to |args|
        invariant Valid()
        invariant options == old(options) && hasArgs == old(hasArgs) && descriptions == old(descriptions)
        invariant optionsMap == ParseAll(old(optionsMap), options, args[..i])
      {
        var argument := args[i];
        assert args[..i + 1][..i] == args[..i];
        ghost var before := optionsMap;
        var kvp := Split(argument, ['=']);
        if |kvp| == 2 {
          var option := ResolveOption(Some(kvp[0]));
          if !StrUtils.IsEmpty(option) && option in options {
            var values := Values(kvp[1]);
            optionsMap := optionsMap[option.value := values];
          }
        }
        assert optionsMap == ParseArg(before, options, argument);
      }
      assert args[..|args|] == args;
    }

    /** `getOptionValues`. */
    method GetOptionValues(opt: Option<string>) returns (values: seq<string>)
      ensures values == OptionValues(optionsMap, opt)
    {
      var o := ResolveOption(opt);
      if o.Some? && o.value in optionsMap {
        values := optionsMap[o.value];
      } else {
        values := [];
      }
    }

    /** `getOptionValue(opt, dv)`; Java's one-argument overload is `dv == None`. */
    method GetOptionValue(opt: Option<string>, dv: Option<string>) returns (r: Option<string>)
      ensures r == OptionValue(optionsMap, opt, dv)
    {
      var values := GetOptionValues(opt);
      r := if |values| == 0 then dv else Some(values[0]);
    }

    /** `hasOption`. */
    method HasOption(opt: Option<string>) returns (r: bool)
      ensures r <==> HasKey(optionsMap, opt)
    {
      var o := ResolveOption(opt);
      r := o.Some? && o.value in optionsMap;
    }
  }
}
