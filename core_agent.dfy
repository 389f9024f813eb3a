/**
 * `CoreAgent.premain`: the start of a protected application. The agent finds
 * the password (hidden in the jar, the `pwd` option, an environment variable,
 * a password file next to the jar, the console, a form, in that order),
 * checks it against the stored hash and installs the decrypting transformer.
 */
module CoreAgent {
  import opened Wrappers
  import opened Bytes
  import opened Strings
  import opened Constants
  import StrUtils
  import EU = EncryptUtils
  import JarUtils
  import CmdLine
  import JD = JarDecryptor
  import JE = JarEncryptor
  import AT = AgentTransformer

  // ---------------------------------------------------------------- options

  /** The options `premain` registers, in order: `pwd`, `pwdname`, `nopwd`, `debug`, `del`. */
  const AGENT_OPTIONS: seq<Option<string>> := [Some("pwd"), Some("pwdname"), Some("nopwd"), Some("debug"), Some("del")]

  /** The parsed agent arguments: `args.split(" ")` fed to the parser, nothing when there are no arguments. */
  function AgentOptionMap(args: Option<string>): map<string, seq<string>> {
    if args.Some? then CmdLine.ParseAll(map[], AGENT_OPTIONS, Split(args.value, " ")) else map[]
  }

  /** `Boolean.parseBoolean`: `true` in any mix of cases. */
  predicate ParseBoolean(s: Option<string>) {
    s.Some? && |s.value| == 4
    && s.value[0] in "tT" && s.value[1] in "rR" && s.value[2] in "uU" && s.value[3] in "eE"
  }

  // ---------------------------------------------------------------- readPasswordFromFile

  /**
   * `File.getParent` of a path: everything before the last separator; a path
   * whose only separator is the leading one has that separator as its parent,
   * and a bare name has none.
   */
  function Parent(sep: JD.Separator, p: string): (r: Option<string>)
    ensures r.Some? ==> |r.value| < |p| && StartsWith(p, r.value)
    ensures sep !in p ==> r.None?
  {
    var k := LastIndexOfChar(p, sep);
    var prefix := if |p| > 0 && p[0] == sep then 1 else 0;
    if k < prefix then (if prefix > 0 && |p| > prefix then Some(p[..prefix]) else None)
    else Some(p[..k])
  }

  /** The name of a jar ends in `.jar`, so `getName()` minus four chars is the jar's prefix. */
  lemma JarNameEndsWithExt(sep: JD.Separator, path: string)
    requires EndsWith(path, JAR_EXT)
    ensures EndsWith(JarUtils.SimpleName(JD.FilePath(sep, path), sep), JAR_EXT)
  {
    var p := JD.FilePath(sep, path);
    var name := JarUtils.SimpleName(p, sep);
    var k := LastIndexOfChar(p, sep);
    forall j | |p| - 4 <= j < |p| ensures p[j] == path[j] && p[j] != sep {
      assert path[j] == JAR_EXT[j - (|path| - 4)];
    }
    assert k < |p| - 4;
  }

  /**
   * The password file `readPasswordFromFile` chooses for a jar that exists in
   * a directory that exists: `<jar name without .jar>-password.txt` beside the
   * jar when that exists, else `password.txt` beside it.
   */
  function PasswordFile(sep: JD.Separator, d: JD.Disk, path: string): (r: Option<string>)
    requires EndsWith(path, JAR_EXT)
    ensures r.Some? ==> JD.Exists(d, JD.FilePath(sep, path)) && Parent(sep, JD.FilePath(sep, path)).Some?
  {
    var jar := JD.FilePath(sep, path);
    var parent := Parent(sep, jar);
    if JD.Exists(d, jar) && parent.Some? && JD.Exists(d, parent.value) then
      JarNameEndsWithExt(sep, path);
      Some(PasswordFileIn(sep, d, parent.value, JarUtils.SimpleName(jar, sep)))
    else None
  }

  /** The password file beside a jar named `jarName` in `parent`: its own if it exists, else the shared one. */
  function PasswordFileIn(sep: JD.Separator, d: JD.Disk, parent: string, jarName: string): string
    requires |jarName| >= 4
  {
    var own := JD.FileOf(sep, parent, jarName[..|jarName| - 4] + "-password.txt");
    if JD.Exists(d, own) then own else JD.FileOf(sep, parent, "password.txt")
  }

  /**
   * `readPasswordFromFile(path, options)` with `del` the parsed `del` option:
   * the non-empty text of the chosen password file, `null` otherwise; reading
   * a directory throws. With `del` the file is emptied once it has been read.
   */
  function ReadPasswordFromFile(rt: JD.Runtime, d: JD.Disk, path: string, del: bool): (r: (JD.Fetch<string>, JD.Disk))
    ensures r.0.Present? ==> |r.0.value| > 0
    ensures !EndsWith(path, JAR_EXT) ==> r == (JD.Absent, d)
    ensures !(del && r.0.Present?) ==> r.1 == d
    ensures r.1.dirs == d.dirs && r.1.files.Keys == d.files.Keys
    ensures forall p :: p in d.files && r.1.files[p] != d.files[p] ==> r.1.files[p] == []
  {
    if !EndsWith(path, JAR_EXT) then (JD.Absent, d)
    else
      match PasswordFile(rt.sep, d, path)
      case None => (JD.Absent, d)
      case Some(f) =>
        if f in d.files then
          var pwd := rt.utf8(d.files[f]);
          if |pwd| > 0 then (JD.Present(pwd), if del then d.(files := d.files[f := []]) else d)
          else (JD.Absent, d)
        else if f in d.dirs then (JD.Failed, d)
        else (JD.Absent, d)
  }

  /** The first half of `readPasswordFromFile`: which password file it settles on. */
  method FindPasswordFile(sep: JD.Separator, d: JD.Disk, path: string) returns (pwdFile: Option<string>)
    requires EndsWith(path, JAR_EXT)
    ensures pwdFile == PasswordFile(sep, d, path)
  {
    pwdFile := None;
    var jarFile := JD.FilePath(sep, path);
    var parentFile := Parent(sep, jarFile);
    if JD.Exists(d, jarFile) && parentFile.Some? && JD.Exists(d, parentFile.value) {
      JarNameEndsWithExt(sep, path);
      var file := ChoosePasswordFile(sep, d, parentFile.value, JarUtils.SimpleName(jarFile, sep));
      pwdFile := Some(file);
    }
  }

  /** The jar's own password file when it exists, else `password.txt`, both in the jar's directory. */
  method ChoosePasswordFile(sep: JD.Separator, d: JD.Disk, parent: string, jarName: string) returns (pwdFile: string)
    requires |jarName| >= 4
    ensures pwdFile == PasswordFileIn(sep, d, parent, jarName)
  {
    var jarPrefixName := jarName[..|jarName| - 4];
    pwdFile := JD.FileOf(sep, parent, jarPrefixName + "-password.txt");
    if !JD.Exists(d, pwdFile) {
      pwdFile := JD.FileOf(sep, parent, "password.txt");
    }
  }



  /**
   * `readPasswordFromFile` step by step: `pwdFile` starts unset, becomes the
   * jar's own password file and falls back to `password.txt`.
   */
  method ReadPasswordFile(rt: JD.Runtime, d: JD.Disk, path: string, del: bool) returns (pwd: JD.Fetch<string>, after: JD.Disk)
    ensures (pwd, after) == ReadPasswordFromFile(rt, d, path, del)
  {
    after := d;
    if !EndsWith(path, JAR_EXT) {
      return JD.Absent, d;
    }
    var pwdFile := FindPasswordFile(rt.sep, d, path);
    pwd := JD.Absent;
    if pwdFile.Some? && JD.Exists(d, pwdFile.value) {
      if pwdFile.value in d.dirs && pwdFile.value !in d.files {
        return JD.Failed, d;
      }
      var text := rt.utf8(d.files[pwdFile.value]);
      if StrUtils.IsNotEmpty(Some(text)) {
        if del {
          after := d.(files := d.files[pwdFile.value := []]);
        }
        pwd := JD.Present(text);
      }
    }
  }

  /** A path whose only `/` are separators is already in `java.io.File` form. */
  lemma FilePathPlain(sep: JD.Separator, s: string)
    requires sep == '/' || '/' !in s
    ensures JD.FilePath(sep, s) == s
  {
  }

  /** Joining paths already in `java.io.File` form puts one separator between them. */
  lemma FileOfPlain(sep: JD.Separator, parent: string, child: string)
    requires parent != [] && parent[|parent| - 1] != sep
    requires '/' !in parent && '/' !in child && child != [] && child[|child| - 1] != sep
    ensures JD.FileOf(sep, parent, child) == parent + [sep] + child
  {
    FilePathPlain(sep, parent);
    FilePathPlain(sep, child);
  }

  /** In `parent/name` with no separator in `name`, the parent is `parent` and the simple name is `name`. */
  lemma LastSegment(sep: JD.Separator, parent: string, name: string)
    requires parent != [] && sep !in name
    ensures Parent(sep, parent + [sep] + name) == Some(parent)
    ensures JarUtils.SimpleName(parent + [sep] + name, sep) == name
  {
    var path := parent + [sep] + name;
    var k := |parent|;
    assert path[k] == sep;
    assert forall j :: k < j < |path| ==> path[j] == name[j - k - 1];
    assert LastIndexOfChar(path, sep) == k;
    assert path[..k] == parent;
    assert path[k + 1..] == name;
  }

  /** A jar's own `<name>-password.txt` wins over the shared `password.txt`. */
  lemma OwnPasswordFileFirst(sep: JD.Separator, d: JD.Disk, parent: string, prefix: string)
    requires parent != [] && '/' !in parent && '/' !in prefix && sep !in prefix
    requires JD.Exists(d, parent + [sep] + prefix + JAR_EXT) && JD.Exists(d, parent)
    requires JD.Exists(d, JD.FileOf(sep, parent, prefix + "-password.txt"))
    ensures PasswordFile(sep, d, parent + [sep] + prefix + JAR_EXT) == Some(JD.FileOf(sep, parent, prefix + "-password.txt"))
  {
    JarBesideParent(sep, parent, prefix);
  }

  /** Without its own file, a jar falls back to the shared `password.txt` beside it. */
  lemma SharedPasswordFileSecond(sep: JD.Separator, d: JD.Disk, parent: string, prefix: string)
    requires parent != [] && '/' !in parent && '/' !in prefix && sep !in prefix
    requires JD.Exists(d, parent + [sep] + prefix + JAR_EXT) && JD.Exists(d, parent)
    requires !JD.Exists(d, JD.FileOf(sep, parent, prefix + "-password.txt"))
    ensures PasswordFile(sep, d, parent + [sep] + prefix + JAR_EXT) == Some(JD.FileOf(sep, parent, "password.txt"))
  {
    JarBesideParent(sep, parent, prefix);
  }

  /** For `parent/prefix.jar` in `java.io.File` form, `getParent` is `parent` and the name minus `.jar` is `prefix`. */
  lemma JarBesideParent(sep: JD.Separator, parent: string, prefix: string)
    requires parent != [] && '/' !in parent && '/' !in prefix && sep !in prefix
    ensures EndsWith(parent + [sep] + prefix + JAR_EXT, JAR_EXT)
    ensures JD.FilePath(sep, parent + [sep] + prefix + JAR_EXT) == parent + [sep] + prefix + JAR_EXT
    ensures Parent(sep, parent + [sep] + prefix + JAR_EXT) == Some(parent)
    ensures var name := JarUtils.SimpleName(parent + [sep] + prefix + JAR_EXT, sep);
      |name| >= 4 && name[..|name| - 4] == prefix
  {
    var name := prefix + JAR_EXT;
    var path := parent + [sep] + name;
    assert path == parent + [sep] + prefix + JAR_EXT;
    assert path[|path| - 4..] == JAR_EXT;
    assert JD.FilePath(sep, path) == path by {
      assert sep == '/' || '/' !in path;
      FilePathPlain(sep, path);
    }
    assert sep !in name;
    LastSegment(sep, parent, name);
    assert name[..|name| - 4] == prefix;
  }

  // ---------------------------------------------------------------- premain

  /**
   * What `premain` sees of its host: the agent's root path (`getRootPath()`),
   * the environment, what the console and the password form yield (`None`
   * when there is no console, the form is not shown, or nothing was typed),
   * and whether an `Instrumentation` was passed.
   */
  datatype Host = Host(
    rootPath: Option<string>,
    env: string -> Option<string>,
    console: Option<string>,
    gui: Option<string>,
    inst: bool)

  /**
   * How `premain` ends: early without a root, by an IOException, by
   * `System.exit`, or normally, with the transformer installed when there is
   * an `Instrumentation`.
   */
  datatype Startup = NoRoot | Aborted | Exited(status: int) | Started(transformer: Option<AT.AgentTransformer>)

  /** The password named by the `pwdname` option, when that is non-empty and the variable is set. */
  function EnvPassword(m: map<string, seq<string>>, env: string -> Option<string>): Option<string> {
    var envName := CmdLine.OptionValue(m, Some("pwdname"), None);
    if StrUtils.IsNotEmpty(envName) then env(envName.value) else None
  }

  /** The password after the jar, the `nopwd` flag, the `pwd` option and the environment. */
  function EarlyPassword(fromJar: Option<string>, m: map<string, seq<string>>, env: string -> Option<string>): Option<string> {
    var p1 := if CmdLine.HasKey(m, Some("nopwd")) then Some("#") else fromJar;
    var value := CmdLine.OptionValue(m, Some("pwd"), None);
    var p2 := if StrUtils.IsEmpty(p1) && value.Some? then value else p1;
    if StrUtils.IsEmpty(p2) && EnvPassword(m, env).Some? then EnvPassword(m, env) else p2
  }

  /** The password after the console and then the form were asked. */
  function LatePassword(p: Option<string>, console: Option<string>, gui: Option<string>): Option<string> {
    var p4 := if StrUtils.IsEmpty(p) && console.Some? then console else p;
    if StrUtils.IsEmpty(p4) && gui.Some? then gui else p4
  }

  /** The `del` option switches on the emptying of the password file. */
  function DeleteAfterRead(m: map<string, seq<string>>): bool {
    ParseBoolean(CmdLine.OptionValue(m, Some("del"), None))
  }

  /** The password `premain` settles on, and the disk after the password-file step; `Unreadable` when a read threw. */
  datatype Chosen = Chosen(password: Option<string>, disk: JD.Disk) | Unreadable

  function ChosenPassword(rt: JD.Runtime, host: Host, disk: JD.Disk, root: string, m: map<string, seq<string>>): (r: Chosen)
    ensures r.Chosen? ==> r.disk.dirs == disk.dirs && r.disk.files.Keys == disk.files.Keys
  {
    var fetched := JD.ReadPassFromJar(rt, disk, root);
    if fetched.Failed? then Unreadable
    else
      var early := EarlyPassword(if fetched.Present? then Some(fetched.value) else None, m, host.env);
      if StrUtils.IsNotEmpty(early) then Chosen(early, disk)
      else
        var (fromFile, disk1) := ReadPasswordFromFile(rt, disk, root, DeleteAfterRead(m));
        if fromFile.Failed? then Unreadable
        else Chosen(LatePassword(if fromFile.Present? then Some(fromFile.value) else None, host.console, host.gui), disk1)
  }

  /** The stored hash admits the password: there is none, or it is md5(SALT‖md5(password‖SALT)). */
  predicate HashAccepts(rt: JD.Runtime, d: JD.Disk, root: string, password: string) {
    match JD.ReadEncryptedFile(rt, d, root, CONFIG_PASSHASH)
    case Absent => true
    case Present(h) => rt.utf8(h) == JE.PassHash(rt.crypto.md5, password)
    case Failed => false
  }

  /**
   * `premain(args, inst)` as a function of its inputs. The result is how it
   * ends and the disk after it (a password file may have been emptied).
   */
  function PremainOf(rt: JD.Runtime, host: Host, disk: JD.Disk, args: Option<string>): (r: (Startup, JD.Disk))
    ensures host.rootPath.None? ==> r == (NoRoot, disk)
    ensures r.0.Exited? ==> r.0.status == 0
    ensures r.0.Started? ==>
      host.rootPath.Some?
      && ChosenPassword(rt, host, disk, host.rootPath.value, AgentOptionMap(args)).Chosen?
      && StrUtils.IsNotEmpty(ChosenPassword(rt, host, disk, host.rootPath.value, AgentOptionMap(args)).password)
      && HashAccepts(rt, r.1, host.rootPath.value, ChosenPassword(rt, host, disk, host.rootPath.value, AgentOptionMap(args)).password.value)
    ensures r.0.Started? ==> (r.0.transformer.Some? <==> host.inst)
    ensures r.0.Started? && host.inst ==>
      r.0.transformer.value.password == ChosenPassword(rt, host, disk, host.rootPath.value, AgentOptionMap(args)).password.value
    ensures r.1.dirs == disk.dirs && r.1.files.Keys == disk.files.Keys
    ensures host.rootPath.Some? ==>
      var chosen := ChosenPassword(rt, host, disk, host.rootPath.value, AgentOptionMap(args));
      (chosen.Unreadable? ==> r == (Aborted, disk))
      && (chosen.Chosen? && StrUtils.IsEmpty(chosen.password) ==> r == (Exited(0), chosen.disk))
  {
    if host.rootPath.None? then (NoRoot, disk)
    else
      var root := host.rootPath.value;
      match ChosenPassword(rt, host, disk, root, AgentOptionMap(args))
      case Unreadable => (Aborted, disk)
      case Chosen(password, disk1) =>
        if StrUtils.IsEmpty(password) then (Exited(0), disk1)
        else
          match JD.ReadEncryptedFile(rt, disk1, root, CONFIG_PASSHASH)
          case Failed => (Aborted, disk1)
          case Present(h) =>
            if rt.utf8(h) != JE.PassHash(rt.crypto.md5, password.value) then (Exited(0), disk1)
            else (Started(if host.inst then Some(AT.AgentTransformer(password.value)) else None), disk1)
          case Absent => (Started(if host.inst then Some(AT.AgentTransformer(password.value)) else None), disk1)
  }

  // ---------------------------------------------------------------- properties of premain

  /** The first candidate that is not empty, if any. */
  function FirstNonEmpty(cs: seq<Option<string>>): (r: Option<string>)
    ensures r.Some? ==> |r.value| > 0 && r in cs
    ensures r.None? <==> forall i :: 0 <= i < |cs| ==> StrUtils.IsEmpty(cs[i])
  {
    if cs == [] then None
    else if StrUtils.IsNotEmpty(cs[0]) then cs[0]
    else
      var r := FirstNonEmpty(cs[1..]);
      assert forall i :: 1 <= i < |cs| ==> cs[i] == cs[1..][i - 1];
      r
  }

  /** The password file's text, when it has some. */
  function FilePassword(rt: JD.Runtime, disk: JD.Disk, root: string, m: map<string, seq<string>>): Option<string> {
    var f := ReadPasswordFromFile(rt, disk, root, DeleteAfterRead(m)).0;
    if f.Present? then Some(f.value) else None
  }

  /** The password hidden in the jar, when there is one. */
  function JarPassword(rt: JD.Runtime, disk: JD.Disk, root: string): Option<string> {
    var f := JD.ReadPassFromJar(rt, disk, root);
    if f.Present? then Some(f.value) else None
  }

  /** The six password sources in the order `premain` asks them. */
  function Sources(rt: JD.Runtime, host: Host, disk: JD.Disk, root: string, m: map<string, seq<string>>): seq<Option<string>> {
    [JarPassword(rt, disk, root), CmdLine.OptionValue(m, Some("pwd"), None), EnvPassword(m, host.env),
     FilePassword(rt, disk, root, m), host.console, host.gui]
  }

  /** Unrolling the first-non-empty search over six candidates. */
  lemma FirstOfSix(a: Option<string>, b: Option<string>, c: Option<string>, e: Option<string>, f: Option<string>, g: Option<string>)
    ensures FirstNonEmpty([a, b, c, e, f, g]) ==
      if StrUtils.IsNotEmpty(a) then a else if StrUtils.IsNotEmpty(b) then b else if StrUtils.IsNotEmpty(c) then c
      else if StrUtils.IsNotEmpty(e) then e else if StrUtils.IsNotEmpty(f) then f else FirstNonEmpty([g])
  {
    FirstNonEmptyCons(f, [g]);
    FirstNonEmptyCons(e, [f, g]);
    FirstNonEmptyCons(c, [e, f, g]);
    FirstNonEmptyCons(b, [c, e, f, g]);
    FirstNonEmptyCons(a, [b, c, e, f, g]);
  }

  /** The search takes the head when it is set and otherwise searches the rest. */
  lemma FirstNonEmptyCons(x: Option<string>, rest: seq<Option<string>>)
    ensures FirstNonEmpty([x] + rest) == if StrUtils.IsNotEmpty(x) then x else FirstNonEmpty(rest)
  {
    assert ([x] + rest)[1..] == rest;
  }


  /**
   * Without `nopwd`, `premain` takes the first non-empty password of the jar,
   * the `pwd` option, the environment variable, the password file, the
   * console and the form, and finds none exactly when all six are empty.
   */
  lemma PasswordPrecedence(rt: JD.Runtime, host: Host, disk: JD.Disk, root: string, m: map<string, seq<string>>)
    requires !CmdLine.HasKey(m, Some("nopwd"))
    requires ChosenPassword(rt, host, disk, root, m).Chosen?
    ensures var p := ChosenPassword(rt, host, disk, root, m).password;
      var first := FirstNonEmpty(Sources(rt, host, disk, root, m));
      (StrUtils.IsEmpty(p) <==> first.None?) && (first.Some? ==> p == first)
  {
    var cs := Sources(rt, host, disk, root, m);
    FirstOfSix(cs[0], cs[1], cs[2], cs[3], cs[4], cs[5]);
    assert cs == [cs[0], cs[1], cs[2], cs[3], cs[4], cs[5]];
    assert [cs[5]][1..] == [];
  }

  /** `nopwd` forces the password `#` and leaves the password file alone. */
  lemma NoPwdFlagWins(rt: JD.Runtime, host: Host, disk: JD.Disk, root: string, m: map<string, seq<string>>)
    requires CmdLine.HasKey(m, Some("nopwd"))
    requires !JD.ReadPassFromJar(rt, disk, root).Failed?
    ensures ChosenPassword(rt, host, disk, root, m) == Chosen(Some("#"), disk)
  {
  }

  /**
   * A password found before the file step leaves the disk as it was: the
   * password file is emptied only when it is the source of the password.
   */
  lemma DiskKeptWhenEarlierSourceWins(rt: JD.Runtime, host: Host, disk: JD.Disk, root: string, m: map<string, seq<string>>)
    requires || CmdLine.HasKey(m, Some("nopwd")) || StrUtils.IsNotEmpty(JarPassword(rt, disk, root))
             || StrUtils.IsNotEmpty(CmdLine.OptionValue(m, Some("pwd"), None)) || StrUtils.IsNotEmpty(EnvPassword(m, host.env))
    ensures ChosenPassword(rt, host, disk, root, m).Chosen? ==> ChosenPassword(rt, host, disk, root, m).disk == disk
  {
    var fetched := JD.ReadPassFromJar(rt, disk, root);
    if !fetched.Failed? {
      var fromJar := if fetched.Present? then Some(fetched.value) else None;
      assert fromJar == JarPassword(rt, disk, root);
      EarlyNonEmpty(fromJar, m, host.env);
      assert ChosenPassword(rt, host, disk, root, m) == Chosen(EarlyPassword(fromJar, m, host.env), disk);
    }
  }

  /** The early password is set once the flag or one of the first three sources is. */
  lemma EarlyNonEmpty(fromJar: Option<string>, m: map<string, seq<string>>, env: string -> Option<string>)
    requires || CmdLine.HasKey(m, Some("nopwd")) || StrUtils.IsNotEmpty(fromJar)
             || StrUtils.IsNotEmpty(CmdLine.OptionValue(m, Some("pwd"), None)) || StrUtils.IsNotEmpty(EnvPassword(m, env))
    ensures StrUtils.IsNotEmpty(EarlyPassword(fromJar, m, env))
  {
  }

  /**
   * With `nopwd` on a jar that holds a password hash, the agent exits unless
   * that hash is the hash of `#` itself: the flag does not look up the hidden
   * password.
   */
  lemma NoPwdFlagMeetsHash(rt: JD.Runtime, host: Host, disk: JD.Disk, args: Option<string>)
    requires host.rootPath.Some? && CmdLine.HasKey(AgentOptionMap(args), Some("nopwd"))
    requires !JD.ReadPassFromJar(rt, disk, host.rootPath.value).Failed?
    requires JD.ReadEncryptedFile(rt, disk, host.rootPath.value, CONFIG_PASSHASH).Present?
    requires rt.utf8(JD.ReadEncryptedFile(rt, disk, host.rootPath.value, CONFIG_PASSHASH).value) != JE.PassHash(rt.crypto.md5, "#")
    ensures PremainOf(rt, host, disk, args) == (Exited(0), disk)
  {
    NoPwdFlagWins(rt, host, disk, host.rootPath.value, AgentOptionMap(args));
  }

  /** The `k`-th agent option name resolves to itself and is new to the ones before it. */
  lemma AgentNameStep(k: nat)
    requires k < |AGENT_OPTIONS|
    ensures CmdLine.Resolve(AGENT_OPTIONS[k]) == AGENT_OPTIONS[k]
    ensures AGENT_OPTIONS[k] !in AGENT_OPTIONS[..k]
    ensures AGENT_OPTIONS[..k] + [AGENT_OPTIONS[k]] == AGENT_OPTIONS[..k + 1]
  {
    var name := AGENT_OPTIONS[k].value;
    assert name != [] && name[0] != '-';
    forall j | 0 <= j < k ensures AGENT_OPTIONS[j] != AGENT_OPTIONS[k] {
      var other := AGENT_OPTIONS[j].value;
      assert |other| != |name| || other[|other| - 1] != name[|name| - 1];
    }
  }

  /** `addOption(name, hasArg, description)` for the `k`-th agent option: it is appended. */
  method AddAgentOption(options: CmdLine.CmdLineOption, k: nat, hasArg: bool, description: string)
    requires k < |AGENT_OPTIONS| && options.Valid()
    requires options.options == AGENT_OPTIONS[..k] && options.optionsMap == map[]
    modifies options
    ensures options.Valid()
    ensures options.options == AGENT_OPTIONS[..k + 1] && options.optionsMap == map[]
  {
    AgentNameStep(k);
    var _ := options.AddOption(AGENT_OPTIONS[k], hasArg, description);
  }

  /** The option registry of `premain`, filled from the agent arguments. */
  method AgentOptions(args: Option<string>) returns (options: CmdLine.CmdLineOption)
    ensures fresh(options) && options.Valid()
    ensures options.options == AGENT_OPTIONS
    ensures options.optionsMap == AgentOptionMap(args)
  {
    options := AgentRegistry();
    if args.Some? {
      var _ := options.Parse(Split(args.value, " "));
    }
  }

  /** The five `addOption` calls of `premain`, on a fresh registry. */
  method AgentRegistry() returns (options: CmdLine.CmdLineOption)
    ensures fresh(options) && options.Valid()
    ensures options.options == AGENT_OPTIONS
    ensures options.optionsMap == map[]
  {
    options := new CmdLine.CmdLineOption();
    assert AGENT_OPTIONS[..0] == [];
    AddAgentOption(options, 0, true, "password");
    AddAgentOption(options, 1, true, "name of the environment variable holding the password");
    AddAgentOption(options, 2, false, "start without a password");
    AddAgentOption(options, 3, false, "debug mode");
    AddAgentOption(options, 4, true, "empty the password file once it is read");
    assert AGENT_OPTIONS[..5] == AGENT_OPTIONS;
  }

  /** The password steps of `premain`: each source is asked only while the password is still empty. */
  method SeekPassword(rt: JD.Runtime, host: Host, disk: JD.Disk, root: string, options: CmdLine.CmdLineOption)
    returns (c: Chosen)
    ensures c == ChosenPassword(rt, host, disk, root, options.optionsMap)
  {
    var fetched := JD.ReadPassFromJar(rt, disk, root);
    if fetched.Failed? {
      return Unreadable;
    }
    var password := if fetched.Present? then Some(fetched.value) else None;
    var after := disk;

    var nopwd := options.HasOption(Some("nopwd"));
    if nopwd {
      password := Some("#");
    }
    if StrUtils.IsEmpty(password) {
      var value := options.GetOptionValue(Some("pwd"), None);
      if value.Some? {
        password := value;
      }
    }
    if StrUtils.IsEmpty(password) {
      var envName := options.GetOptionValue(Some("pwdname"), None);
      if StrUtils.IsNotEmpty(envName) {
        var value := host.env(envName.value);
        if value.Some? {
          password := value;
        }
      }
    }
    assert password == EarlyPassword(if fetched.Present? then Some(fetched.value) else None, options.optionsMap, host.env);
    if StrUtils.IsEmpty(password) {
      var del := options.GetOptionValue(Some("del"), None);
      var fromFile, disk1 := ReadPasswordFile(rt, disk, root, ParseBoolean(del));
      if fromFile.Failed? {
        return Unreadable;
      }
      password := if fromFile.Present? then Some(fromFile.value) else None;
      after := disk1;
    }
    if StrUtils.IsEmpty(password) && host.console.Some? {
      password := host.console;
    }
    if StrUtils.IsEmpty(password) && host.gui.Some? {
      password := host.gui;
    }
    c := Chosen(password, after);
  }

  /**
   * `premain`: registers the five options, parses the arguments, asks the
   * password sources in turn and checks the password against the stored hash.
   */
  method Premain(rt: JD.Runtime, host: Host, disk: JD.Disk, args: Option<string>) returns (r: Startup, after: JD.Disk)
    ensures (r, after) == PremainOf(rt, host, disk, args)
  {
    var options := AgentOptions(args);
    if host.rootPath.None? {
      return NoRoot, disk;
    }
    var root := host.rootPath.value;
    var chosen := SeekPassword(rt, host, disk, root, options);
    if chosen.Unreadable? {
      return Aborted, disk;
    }
    var password := chosen.password;
    after := chosen.disk;
    if StrUtils.IsEmpty(password) {
      return Exited(0), after;
    }

    var passHash := JD.ReadEncryptedFile(rt, after, root, CONFIG_PASSHASH);
    if passHash.Failed? {
      return Aborted, after;
    }
    if passHash.Present? {
      var internal := rt.utf8(passHash.value);
      var external := EU.Md5(rt.crypto.md5, password.value + EU.SALT, false);
      external := EU.Md5(rt.crypto.md5, EU.SALT + external, false);
      var same := StrUtils.Equals(internal, external);
      if !same {
        return Exited(0), after;
      }
    }
    if host.inst {
      r := Started(Some(AT.AgentTransformer(password.value)));
    } else {
      r := Started(None);
    }
  }
}
