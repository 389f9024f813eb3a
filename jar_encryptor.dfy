/**
 * `JarEncryptor`: the build-time side of the protection. The unpacked working
 * directory is an in-memory map from absolute path to bytes; `sep` is
 * `File.separator`. javassist, zip I/O and the console are left out.
 */
module JarEncryptor {
  import opened Wrappers
  import opened Strings
  import opened Bytes
  import opened Constants
  import StrUtils
  import EU = EncryptUtils
  import JarUtils
  import Seqs

  // ---------------------------------------------------------------- initParam

  datatype InitError = NoZipPath | FileMissing | BadFormat | EmptyPassword

  /** The text after the last `.` of the path. */
  function ExtName(zipPath: string): string
    requires '.' in zipPath
  {
    zipPath[LastIndexOfChar(zipPath, '.') + 1..]
  }

  /** `initParam`'s checks, in order: a path, an existing file, a `jar`/`war` extension, a password. */
  function InitCheck(zipPath: Option<string>, fileExists: bool, password: Option<string>): (r: Option<InitError>)
    ensures r == Some(NoZipPath) <==> zipPath.None?
    ensures r == Some(FileMissing) <==> zipPath.Some? && !fileExists
    ensures r == Some(BadFormat) <==>
      zipPath.Some? && fileExists && ('.' !in zipPath.value || ExtName(zipPath.value) !in {"jar", "war"})
    ensures r == Some(EmptyPassword) <==>
      zipPath.Some? && fileExists && '.' in zipPath.value && ExtName(zipPath.value) in {"jar", "war"}
      && StrUtils.IsEmpty(password)
    ensures r.None? <==>
      zipPath.Some? && fileExists && '.' in zipPath.value && ExtName(zipPath.value) in {"jar", "war"}
      && !StrUtils.IsEmpty(password)
  {
    if zipPath.None? then Some(NoZipPath)
    else if !fileExists then Some(FileMissing)
    else if LastIndexOfChar(zipPath.value, '.') == -1 then Some(BadFormat)
    else if ExtName(zipPath.value) != "jar" && ExtName(zipPath.value) != "war" then Some(BadFormat)
    else if StrUtils.IsEmpty(password) then Some(EmptyPassword)
    else None
  }

  /** The temp working directory: every `.jar` (or `.war`) of the path replaced by `__temp__`. */
  function TempWorkName(zipPath: string, jarOrWar: bool): string {
    Replace(zipPath, if jarOrWar then JAR_EXT else WAR_EXT, TEMP_SUFFIX)
  }

  /** A path whose only `.jar` is its extension gets its temp directory beside it: `/a/app.jar` gives `/a/app__temp__`. */
  lemma TempWorkOfJar(p: string)
    requires forall k :: 0 <= k < |p| ==> !OccursAt(p + JAR_EXT, JAR_EXT, k)
    ensures TempWorkName(p + JAR_EXT, true) == p + TEMP_SUFFIX
  {
    ReplaceSuffix(p, JAR_EXT, TEMP_SUFFIX);
  }

  /** `new File(parent, child)`. */
  function Child(parent: string, sep: char, child: string): string {
    parent + [sep] + child
  }

  /** The lib and classes directories: under BOOT-INF for a jar, WEB-INF for a war. */
  function InfDir(tempWork: string, sep: char, jarOrWar: bool, leaf: string): string {
    Child(tempWork, sep, (if jarOrWar then "BOOT-INF" else WEB_INF) + [sep] + leaf)
  }

  // ---------------------------------------------------------------- resolveClassName

  /** `File.separator + "lib" + File.separator` and the same for "classes". */
  function LibMarker(sep: char): string { [sep] + "lib" + [sep] }
  function ClassesMarker(sep: char): string { [sep] + "classes" + [sep] }

  /** The path without its last six characters (the `.class`). */
  function Stem(fileName: string): string
    requires |fileName| >= 6
  {
    fileName[..|fileName| - 6]
  }

  /**
   * Where the raw class path starts in the stem: after the first `__temp__` that
   * follows the first lib marker, else after the first classes marker, else after
   * the first `__temp__`, skipping one separator after `__temp__`. Java's
   * `indexOf` gives -1 when nothing is found.
   */
  function RawStart(sep: char, f: string): (start: int)
    ensures start >= |TEMP_SUFFIX|
  {
    if Contains(f, LibMarker(sep)) then IndexOfFrom(f, TEMP_SUFFIX, IndexOf(f, LibMarker(sep))) + |TEMP_SUFFIX| + 1
    else if Contains(f, ClassesMarker(sep)) then IndexOf(f, ClassesMarker(sep)) + |ClassesMarker(sep)|
    else IndexOf(f, TEMP_SUFFIX) + |TEMP_SUFFIX| + 1
  }

  /** `resolveClassName` raises no `StringIndexOutOfBoundsException` on this path. */
  predicate Resolvable(sep: char, fileName: string) {
    |fileName| >= 6 && RawStart(sep, Stem(fileName)) <= |Stem(fileName)|
  }

  /** The raw class path: the stem from `RawStart` on. */
  function RawClassPath(sep: char, fileName: string): string
    requires Resolvable(sep, fileName)
  {
    Stem(fileName)[RawStart(sep, Stem(fileName))..]
  }

  /** Both results of `resolveClassName`, as its memo stores them. */
  datatype ClassInfo = ClassInfo(className: string, codeLocation: string)

  /** `resolveClassName(fileName, _)` on a memo miss: the code location and the class name. */
  function ClassInfoOf(sep: char, fileName: string): ClassInfo
    requires Resolvable(sep, fileName)
  {
    ClassInfo(Replace(RawClassPath(sep, fileName), [sep], "."),
              Stem(fileName)[..|Stem(fileName)| - |RawClassPath(sep, fileName)| - 1])
  }

  /**
   * How `resolveClassName` splits a path: the stem is the code location, one
   * character and the raw class path; under a classes marker that character is
   * the separator. The class name is the raw path with separators turned into dots.
   */
  lemma ClassInfoSplit(sep: char, fileName: string)
    requires Resolvable(sep, fileName)
    ensures var f := Stem(fileName); var info := ClassInfoOf(sep, fileName);
      |info.codeLocation| + 1 + |RawClassPath(sep, fileName)| == |f|
      && f == info.codeLocation + [f[|info.codeLocation|]] + RawClassPath(sep, fileName)
    ensures var f := Stem(fileName);
      !Contains(f, LibMarker(sep)) && Contains(f, ClassesMarker(sep)) ==> f[|ClassInfoOf(sep, fileName).codeLocation|] == sep
  {
    var f := Stem(fileName);
    var className := RawClassPath(sep, fileName);
    var codeLocation := f[..|f| - |className| - 1];
    assert f == codeLocation + [f[|codeLocation|]] + className;
  }

  /** The class name is the raw class path with every separator turned into `.`. */
  lemma ClassNameDots(sep: char, fileName: string)
    requires Resolvable(sep, fileName)
    ensures |ClassInfoOf(sep, fileName).className| == |RawClassPath(sep, fileName)|
    ensures forall k :: 0 <= k < |ClassInfoOf(sep, fileName).className| ==>
      ClassInfoOf(sep, fileName).className[k] == if RawClassPath(sep, fileName)[k] == sep then '.' else RawClassPath(sep, fileName)[k]
  {
    ReplaceOneChar(RawClassPath(sep, fileName), sep, '.');
  }


  /** A class name holds no separator, unless the separator is the dot itself. */
  lemma ClassNameHasNoSeparator(sep: char, fileName: string)
    requires Resolvable(sep, fileName) && sep != '.'
    ensures sep !in ClassInfoOf(sep, fileName).className
  {
    ClassNameDots(sep, fileName);
    var n := ClassInfoOf(sep, fileName).className;
    forall k | 0 <= k < |n| ensures n[k] != sep {
    }
  }

  /** A class under `.../WEB-INF/classes/`: the location ends with the marker's first separator, the name follows it. */
  lemma ClassesDirSplit(sep: char, loc: string, raw: string)
    requires !Contains(loc + ClassesMarker(sep) + raw, LibMarker(sep))
    requires forall k :: 0 <= k < |loc| ==> !OccursAt(loc + ClassesMarker(sep) + raw, ClassesMarker(sep), k)
    ensures Resolvable(sep, loc + ClassesMarker(sep) + raw + CLASS_EXT)
    ensures ClassInfoOf(sep, loc + ClassesMarker(sep) + raw + CLASS_EXT).codeLocation == loc + [sep] + "classes"
    ensures RawClassPath(sep, loc + ClassesMarker(sep) + raw + CLASS_EXT) == raw
  {
    var f := loc + ClassesMarker(sep) + raw;
    var fileName := f + CLASS_EXT;
    assert Stem(fileName) == f;
    assert OccursAt(f, ClassesMarker(sep), |loc|);
    assert IndexOf(f, ClassesMarker(sep)) == |loc|;
    assert f[|loc| + |ClassesMarker(sep)|..] == raw;
    assert f[..|loc| + |ClassesMarker(sep)| - 1] == loc + [sep] + "classes";
  }

  // ---------------------------------------------------------------- toCharArrayCode

  /** The quoted items of `toCharArrayCode`, comma separated. */
  function QuotedItems(chars: string): (s: string)
    ensures |s| == if chars == [] then 0 else 4 * |chars| - 1
    ensures forall i :: 0 <= i < |chars| ==> s[4 * i] == '\'' && s[4 * i + 1] == chars[i] && s[4 * i + 2] == '\''
    ensures forall i :: 0 < i < |chars| ==> s[4 * i - 1] == ','
  {
    if chars == [] then []
    else
      var init := chars[..|chars| - 1];
      var prev := QuotedItems(init);
      var s := prev + (if init == [] then "" else ",") + ['\'', chars[|chars| - 1], '\''];
      assert forall i :: 0 <= i < |init| ==> init[i] == chars[i];
      s
  }

  /** The Java array initialiser `toCharArrayCode` builds: `{'a','b'}`, or `{}`. */
  function CharArrayCode(chars: string): (s: string)
    ensures |s| == if chars == [] then 2 else 4 * |chars| + 1
    ensures s[0] == '{' && s[|s| - 1] == '}'
    ensures forall i :: 0 <= i < |chars| ==> s[4 * i + 2] == chars[i]
  {
    "{" + QuotedItems(chars) + "}"
  }

  /** Reads the characters back out of an initialiser. */
  function ParseCharArrayCode(s: string): string
  {
    if |s| < 2 then [] else seq((|s| - 1) / 4, i requires 0 <= i < (|s| - 1) / 4 => if 4 * i + 2 < |s| then s[4 * i + 2] else ' ')
  }

  /** The initialiser determines the characters it was built from. */
  lemma CharArrayCodeRoundTrip(chars: string)
    ensures ParseCharArrayCode(CharArrayCode(chars)) == chars
  {
    var s := CharArrayCode(chars);
    var p := ParseCharArrayCode(s);
    if chars == [] {
      assert |s| == 2;
    } else {
      assert |s| - 1 == 4 * |chars|;
    }
    assert (|s| - 1) / 4 == |chars|;
    forall i | 0 <= i < |chars|
      ensures p[i] == chars[i]
    {
      assert 4 * i + 2 < |s|;
    }
  }

  /** `toCharArrayCode(chars)`: a StringBuilder with a `first` flag. */
  method ToCharArrayCode(chars: string) returns (r: string)
    ensures r == CharArrayCode(chars)
  {
    var sb := "{";
    var first := true;
    for i := 0 to |chars|
      invariant first <==> i == 0
      invariant sb == "{" + QuotedItems(chars[..i])
    {
      assert chars[..i + 1][..i] == chars[..i];
      if !first {
        sb := sb + ",";
      }
      sb := sb + "'" + [chars[i]] + "'";
      first := false;
    }
    assert chars[..|chars|] == chars;
    r := sb + "}";
  }

  // ---------------------------------------------------------------- InjectInfo

  /** A decryption hook: the method to patch, the code to insert and the line to insert it at. */
  datatype InjectInfo = InjectInfo(classMethod: string, code: string, line: int)

  const PASSCHAR: string := "${passchar}"

  /** `getCode(placeholder, value)`: every occurrence of the placeholder replaced. */
  function GetCode(info: InjectInfo, placeholder: string, value: string): string {
    Replace(info.code, placeholder, value)
  }

  /** A hook with one placeholder gets the value in its place and is otherwise unchanged. */
  lemma GetCodeFillsPlaceholder(classMethod: string, before: string, after: string, line: int, value: string)
    requires forall k :: 0 <= k < |before| ==> !OccursAt(before + PASSCHAR + after, PASSCHAR, k)
    requires !Contains(after, PASSCHAR)
    ensures GetCode(InjectInfo(classMethod, before + PASSCHAR + after, line), PASSCHAR, value) == before + value + after
  {
    ReplaceFirst(before, PASSCHAR, after, value);
    ReplaceAbsent(after, PASSCHAR, value);
  }

  /** A hook without the placeholder is returned as it is. */
  lemma GetCodeWithoutPlaceholder(info: InjectInfo, placeholder: string, value: string)
    requires |placeholder| > 0 && !Contains(info.code, placeholder)
    ensures GetCode(info, placeholder, value) == info.code
  {
    ReplaceAbsent(info.code, placeholder, value);
  }

  // ---------------------------------------------------------------- naming in doEncryptJar / packageJar

  /** The directory a nested jar is unpacked into and packed back from: the path minus `.jar`, plus `__temp__`. */
  function LibTempWork(libJar: string): string
    requires |libJar| >= 4
  {
    libJar[..|libJar| - 4] + TEMP_SUFFIX
  }

  lemma LibTempWorkOfJar(p: string)
    ensures LibTempWork(p + JAR_EXT) == p + TEMP_SUFFIX
  {
    assert (p + JAR_EXT)[..|p|] == p;
  }

  /** The output archive: `zipPath` with `.ext` replaced by `-encrypted.ext`. */
  function OutJarName(zipPath: string, extName: string): string {
    Replace(zipPath, "." + extName, "-encrypted." + extName)
  }

  /** `/a/app.jar` becomes `/a/app-encrypted.jar` when `.jar` occurs only at the end. */
  lemma OutJarOfJar(p: string)
    requires forall k :: 0 <= k < |p| ==> !OccursAt(p + ".jar", ".jar", k)
    ensures OutJarName(p + ".jar", "jar") == p + "-encrypted.jar"
  {
    assert "." + "jar" == ".jar";
    assert "-encrypted." + "jar" == "-encrypted.jar";
    ReplaceSuffix(p, ".jar", "-encrypted.jar");
  }

  /** The archives inside the archive that are unpacked: `.jar` paths whose file name `includeJars` selects. */
  function LibJars(allFilePath: seq<string>, includeJars: Option<seq<string>>, sep: char): (r: seq<string>)
    ensures forall p :: p in r <==>
      p in allFilePath && EndsWith(p, JAR_EXT) && StrUtils.MatchAny(includeJars, JarUtils.SimpleName(p, sep), false)
  {
    if allFilePath == [] then []
    else
      var init := allFilePath[..|allFilePath| - 1];
      var p := allFilePath[|allFilePath| - 1];
      assert allFilePath == init + [p];
      LibJars(init, includeJars, sep)
      + (if EndsWith(p, JAR_EXT) && StrUtils.MatchAny(includeJars, JarUtils.SimpleName(p, sep), false) then [p] else [])
  }

  // ---------------------------------------------------------------- extractClasses

  /** Every `.class` path in the list can be resolved to a class name. */
  predicate ClassPathsResolvable(sep: char, paths: seq<string>) {
    forall i {:trigger Resolvable(sep, paths[i])} :: 0 <= i < |paths| && EndsWith(paths[i], CLASS_EXT) ==> Resolvable(sep, paths[i])
  }

  /** The message of the exception `substring` raises on an index past the string. */
  const INDEX_OUT_OF_BOUNDS: string := "StringIndexOutOfBoundsException"

  /** Where `extractClasses` stops: the first `.class` path that cannot be resolved, else the length. */
  function FirstUnresolvable(sep: char, paths: seq<string>): (k: nat)
    ensures k <= |paths|
    ensures forall i {:trigger Resolvable(sep, paths[i])} :: 0 <= i < k && EndsWith(paths[i], CLASS_EXT) ==> Resolvable(sep, paths[i])
    ensures k < |paths| ==> EndsWith(paths[k], CLASS_EXT) && !Resolvable(sep, paths[k])
    ensures k == |paths| <==> ClassPathsResolvable(sep, paths)
  {
    if paths == [] then 0
    else if EndsWith(paths[0], CLASS_EXT) && !Resolvable(sep, paths[0]) then 0
    else
      var k := 1 + FirstUnresolvable(sep, paths[1..]);
      assert forall i :: 1 <= i < k ==> paths[i] == paths[1..][i - 1];
      k
  }

  /** The `.class` paths of a list. */
  function ClassSet(paths: seq<string>): set<string> {
    set p | p in paths && EndsWith(p, CLASS_EXT)
  }

  lemma ClassSetSnoc(paths: seq<string>, p: string)
    ensures ClassSet(paths + [p]) == ClassSet(paths) + (if EndsWith(p, CLASS_EXT) then {p} else {})
  {
  }

  /** The paths of a list, as a set. */
  function Elements(paths: seq<string>): set<string> {
    set p | p in paths
  }

  lemma ElementsSnoc(paths: seq<string>, p: string)
    ensures Elements(paths + [p]) == Elements(paths) + {p}
  {
  }

  /** Every class file can be resolved. */
  predicate AllResolvable(sep: char, classFiles: seq<string>) {
    forall i {:trigger Resolvable(sep, classFiles[i])} :: 0 <= i < |classFiles| ==> Resolvable(sep, classFiles[i])
  }

  /** A class is encrypted when its name matches `packages` and does not match `excludeClass`, both defaulting to false. */
  predicate ClassSelected(sep: char, packages: Option<seq<string>>, excludeClass: Option<seq<string>>, path: string)
    requires Resolvable(sep, path)
  {
    var className := ClassInfoOf(sep, path).className;
    StrUtils.MatchAny(packages, className, false) && !StrUtils.MatchAny(excludeClass, className, false)
  }

  /** The test `extractClasses` applies to a path: a resolvable `.class` path whose class name is selected. */
  predicate SelectsPath(sep: char, packages: Option<seq<string>>, excludeClass: Option<seq<string>>, p: string) {
    EndsWith(p, CLASS_EXT) && Resolvable(sep, p) && ClassSelected(sep, packages, excludeClass, p)
  }

  function PathFilter(sep: char, packages: Option<seq<string>>, excludeClass: Option<seq<string>>): string -> bool {
    p => SelectsPath(sep, packages, excludeClass, p)
  }

  /** The list `extractClasses` builds from the first `n` paths: the selected `.class` paths, in input order. */
  function Selected(sep: char, packages: Option<seq<string>>, excludeClass: Option<seq<string>>, paths: seq<string>, n: nat): seq<string>
    requires n <= |paths|
  {
    Seqs.Kept(paths, PathFilter(sep, packages, excludeClass), n)
  }

  /** One more path joins the selection when it is a selected `.class` path. */
  lemma SelectedStep(sep: char, packages: Option<seq<string>>, excludeClass: Option<seq<string>>, paths: seq<string>, i: nat)
    requires i < |paths|
    ensures Selected(sep, packages, excludeClass, paths, i + 1) ==
      Selected(sep, packages, excludeClass, paths, i) + (if SelectsPath(sep, packages, excludeClass, paths[i]) then [paths[i]] else [])
  {
  }

  /** A path is selected exactly when it is a `.class` path among the first `n` whose class name is selected. */
  lemma SelectedMembers(sep: char, packages: Option<seq<string>>, excludeClass: Option<seq<string>>, paths: seq<string>, n: nat)
    requires ClassPathsResolvable(sep, paths) && n <= |paths|
    ensures forall p :: p in Selected(sep, packages, excludeClass, paths, n) <==>
      p in paths[..n] && EndsWith(p, CLASS_EXT) && ClassSelected(sep, packages, excludeClass, p)
  {
    Seqs.KeptMembers(paths, PathFilter(sep, packages, excludeClass), n);
    forall p | p in paths[..n] && EndsWith(p, CLASS_EXT)
      ensures Resolvable(sep, p)
    {
      var i :| 0 <= i < n && paths[..n][i] == p;
      assert paths[i] == p;
    }
  }

  /** Without `packages`, or with an empty list, nothing is selected. */
  lemma NothingSelectedWithoutPackages(sep: char, packages: Option<seq<string>>, excludeClass: Option<seq<string>>, paths: seq<string>, n: nat)
    requires n <= |paths| && (packages.None? || packages == Some([]))
    ensures Selected(sep, packages, excludeClass, paths, n) == []
  {
    Seqs.KeptNone(paths, PathFilter(sep, packages, excludeClass), n);
  }

  /** The selection keeps input order: entry `j` is the path at position `pos[j]`, and the positions increase. */
  lemma SelectedInOrder(sep: char, packages: Option<seq<string>>, excludeClass: Option<seq<string>>, paths: seq<string>, n: nat)
    requires n <= |paths|
    ensures var r := Selected(sep, packages, excludeClass, paths, n);
      exists pos: seq<nat> ::
      |pos| == |r|
      && (forall j :: 0 <= j < |pos| ==> pos[j] < n && paths[pos[j]] == r[j])
      && (forall j, k :: 0 <= j < k < |pos| ==> pos[j] < pos[k])
  {
    var keep := PathFilter(sep, packages, excludeClass);
    Seqs.KeptPositionsSource(paths, keep, n);
    Seqs.KeptPositionsIncrease(paths, keep, n);
    var pos := Seqs.KeptPositions(paths, keep, n);
    assert |pos| == |Selected(sep, packages, excludeClass, paths, n)|;
  }

  // ---------------------------------------------------------------- encryptClass

  /** `isNoPwdMode`: the password is the single character `#`. */
  predicate NoPwd(password: string) {
    password == "#"
  }

  /** `META-INF/.classes` under the temp working directory. */
  function MetaDir(tempWork: string, sep: char): string {
    Child(tempWork, sep, META_INF + [sep] + FILE_NAME)
  }

  /** A class file's name in `encryptClass`: its simple name, or its class name when that ends in `.class`. */
  predicate NameResolvable(sep: char, classFile: string) {
    EndsWith(JarUtils.SimpleName(classFile, sep), CLASS_EXT) ==> Resolvable(sep, classFile)
  }

  predicate NamesResolvable(sep: char, classFiles: seq<string>) {
    forall i {:trigger NameResolvable(sep, classFiles[i])} :: 0 <= i < |classFiles| ==> NameResolvable(sep, classFiles[i])
  }

  function PayloadName(sep: char, classFile: string): string
    requires NameResolvable(sep, classFile)
  {
    if EndsWith(JarUtils.SimpleName(classFile, sep), CLASS_EXT) then ClassInfoOf(sep, classFile).className
    else JarUtils.SimpleName(classFile, sep)
  }

  /** The names `encryptClass` returns for the first `n` class files, in input order. */
  function PayloadNames(sep: char, classFiles: seq<string>, n: nat): (names: seq<string>)
    requires NamesResolvable(sep, classFiles) && n <= |classFiles|
    ensures |names| == n
  {
    seq(n, i requires 0 <= i < n => PayloadName(sep, classFiles[i]))
  }

  /** The class files whose payload is named by class name, so that `encryptClass` resolves them. */
  function NamedClassSet(sep: char, classFiles: seq<string>): set<string> {
    set p | p in classFiles && EndsWith(JarUtils.SimpleName(p, sep), CLASS_EXT)
  }

  lemma NamedClassSetSnoc(sep: char, classFiles: seq<string>, p: string)
    ensures NamedClassSet(sep, classFiles + [p])
      == NamedClassSet(sep, classFiles) + (if EndsWith(JarUtils.SimpleName(p, sep), CLASS_EXT) then {p} else {})
  {
  }

  /** The memo keys after one more round of the payload loop. */
  lemma NamedClassSetStep(sep: char, known: set<string>, classFiles: seq<string>, i: nat)
    requires i < |classFiles|
    ensures known + NamedClassSet(sep, classFiles[..i + 1])
      == known + NamedClassSet(sep, classFiles[..i])
         + (if EndsWith(JarUtils.SimpleName(classFiles[i], sep), CLASS_EXT) then {classFiles[i]} else {})
  {
    Seqs.TakeSnoc(classFiles, i);
    NamedClassSetSnoc(sep, classFiles[..i], classFiles[i]);
  }

  /** The content of a payload: encrypted under `pw‖name`, then under `name‖code` when a machine code is set. */
  function Payload(crypto: EU.Crypto, pw: string, code: Option<string>, name: string, bytes: seq<Byte>): (r: seq<Byte>)
    ensures |r| == |bytes|
  {
    var layer := EU.Encryption(crypto, bytes, pw + name, Constants.ENCRYPT_TYPE).value;
    if StrUtils.IsNotEmpty(code) then EU.Encryption(crypto, layer, name + code.value, Constants.ENCRYPT_TYPE).value else layer
  }

  /** The stored password check: md5(SALT‖md5(pw‖SALT)). */
  function PassHash(md5: string -> EU.Digest, pw: string): string {
    EU.Md5Hex(md5, EU.SALT + EU.Md5Hex(md5, pw + EU.SALT, false), false)
  }

  /** Every class file is in the working directory. */
  predicate AllPresent(files: map<string, seq<Byte>>, classFiles: seq<string>) {
    forall i :: 0 <= i < |classFiles| ==> classFiles[i] in files
  }

  /** The payload paths `META-INF/.classes/<name>`. */
  function PayloadPaths(sep: char, metaDir: string, names: seq<string>): (r: seq<string>)
    ensures |r| == |names|
  {
    seq(|names|, k requires 0 <= k < |names| => Child(metaDir, sep, names[k]))
  }

  /** The payload of round `k`; the bytes pass unchanged past the last name. */
  function PayloadOf(crypto: EU.Crypto, pw: string, code: Option<string>, names: seq<string>): (nat, seq<Byte>) -> seq<Byte> {
    (k: nat, bytes: seq<Byte>) => if k < |names| then Payload(crypto, pw, code, names[k], bytes) else bytes
  }

  /** The working directory after the first `n` rounds of the payload loop of `encryptClass`; `names[k]` names the payload of `classFiles[k]`. */
  function StoreAll(crypto: EU.Crypto, pw: string, code: Option<string>, sep: char, metaDir: string,
                    files: map<string, seq<Byte>>, classFiles: seq<string>, names: seq<string>, n: nat): (r: map<string, seq<Byte>>)
    requires |names| == |classFiles| && AllPresent(files, classFiles) && n <= |classFiles|
    ensures files.Keys <= r.Keys
    ensures forall k :: 0 <= k < n ==> Child(metaDir, sep, names[k]) in r
  {
    var paths := PayloadPaths(sep, metaDir, names);
    var r := Seqs.Transferred(files, classFiles, paths, PayloadOf(crypto, pw, code, names), n);
    assert forall k :: 0 <= k < n ==> paths[k] == Child(metaDir, sep, names[k]);
    r
  }

  /** One unfolding of `StoreAll`, the step of the `encryptClass` payload loop. */
  lemma StoreAllStep(crypto: EU.Crypto, pw: string, code: Option<string>, sep: char, metaDir: string,
                     files: map<string, seq<Byte>>, classFiles: seq<string>, names: seq<string>, i: nat)
    requires |names| == |classFiles| && AllPresent(files, classFiles) && i < |classFiles|
    ensures classFiles[i] in StoreAll(crypto, pw, code, sep, metaDir, files, classFiles, names, i)
    ensures StoreAll(crypto, pw, code, sep, metaDir, files, classFiles, names, i + 1)
      == StoreAll(crypto, pw, code, sep, metaDir, files, classFiles, names, i)[Child(metaDir, sep, names[i]) :=
           Payload(crypto, pw, code, names[i], StoreAll(crypto, pw, code, sep, metaDir, files, classFiles, names, i)[classFiles[i]])]
  {
    Seqs.TransferredStep(files, classFiles, PayloadPaths(sep, metaDir, names), PayloadOf(crypto, pw, code, names), i);
  }

  /** No two payloads share a path, and no payload overwrites a class file. */
  predicate PathsApart(sep: char, metaDir: string, classFiles: seq<string>, names: seq<string>) {
    (forall j, k :: 0 <= j < k < |names| ==> names[j] != names[k])
    && (forall j, k :: 0 <= j < |classFiles| && 0 <= k < |names| ==> classFiles[j] != Child(metaDir, sep, names[k]))
  }

  /** Distinct names under one directory are distinct paths. */
  lemma ChildApart(dir: string, sep: char, a: string, b: string)
    requires a != b
    ensures Child(dir, sep, a) != Child(dir, sep, b)
  {
    assert Child(dir, sep, a)[|dir| + 1..] == a;
    assert Child(dir, sep, b)[|dir| + 1..] == b;
  }

  /** A path that is no payload path keeps its content through the loop. */
  lemma StoreAllUntouched(crypto: EU.Crypto, pw: string, code: Option<string>, sep: char, metaDir: string,
                          files: map<string, seq<Byte>>, classFiles: seq<string>, names: seq<string>, n: nat, p: string)
    requires |names| == |classFiles| && AllPresent(files, classFiles) && n <= |classFiles|
    requires forall k :: 0 <= k < n ==> p != Child(metaDir, sep, names[k])
    ensures p in StoreAll(crypto, pw, code, sep, metaDir, files, classFiles, names, n) <==> p in files
    ensures p in files ==> StoreAll(crypto, pw, code, sep, metaDir, files, classFiles, names, n)[p] == files[p]
  {
    var paths := PayloadPaths(sep, metaDir, names);
    assert forall k :: 0 <= k < n ==> p != paths[k];
    Seqs.TransferredUntouched(files, classFiles, paths, PayloadOf(crypto, pw, code, names), n, p);
  }

  /** The loop only adds paths. */
  lemma StoreAllKeys(crypto: EU.Crypto, pw: string, code: Option<string>, sep: char, metaDir: string,
                     files: map<string, seq<Byte>>, classFiles: seq<string>, names: seq<string>, n: nat)
    requires |names| == |classFiles| && AllPresent(files, classFiles) && n <= |classFiles|
    ensures AllPresent(StoreAll(crypto, pw, code, sep, metaDir, files, classFiles, names, n), classFiles)
  {
  }

  /** Each class file's payload is its original content under the layered keys, at `META-INF/.classes/<name>`. */
  lemma StoreAllPayload(crypto: EU.Crypto, pw: string, code: Option<string>, sep: char, metaDir: string,
                        files: map<string, seq<Byte>>, classFiles: seq<string>, names: seq<string>, n: nat, i: nat)
    requires |names| == |classFiles| && AllPresent(files, classFiles) && i < n <= |classFiles|
    requires forall k :: i < k < n ==> names[i] != names[k]
    requires forall k :: 0 <= k < i ==> classFiles[i] != Child(metaDir, sep, names[k])
    ensures StoreAll(crypto, pw, code, sep, metaDir, files, classFiles, names, n)[Child(metaDir, sep, names[i])]
      == Payload(crypto, pw, code, names[i], files[classFiles[i]])
  {
    var paths := PayloadPaths(sep, metaDir, names);
    forall k | i < k < n ensures paths[i] != paths[k] {
      ChildApart(metaDir, sep, names[i], names[k]);
    }
    assert forall k :: 0 <= k < i ==> classFiles[i] != paths[k];
    Seqs.TransferredAt(files, classFiles, paths, PayloadOf(crypto, pw, code, names), n, i);
  }

  /** The password the payloads are keyed with: in no-password mode md5 of 32 random chars. */
  function ActivePassword(md5: string -> EU.Digest, password: string, random: nat -> EU.Draw): string {
    if NoPwd(password) then EU.Md5Hex(md5, EU.RandomCharsOf(32, random), false) else password
  }

  /** A generated password is 32 hex chars, so a second `encryptClass` does not generate again. */
  lemma GeneratedPasswordIsFinal(md5: string -> EU.Digest, password: string, random: nat -> EU.Draw)
    requires NoPwd(password)
    ensures !NoPwd(ActivePassword(md5, password, random))
    ensures forall r :: ActivePassword(md5, ActivePassword(md5, password, random), r) == ActivePassword(md5, password, random)
  {
  }

  /** The class files can be read and named. */
  predicate Encryptable(sep: char, files: map<string, seq<Byte>>, classFiles: seq<string>) {
    AllPresent(files, classFiles) && NamesResolvable(sep, classFiles)
  }

  /** The marker files `encryptClass` writes before the payloads: the random chars in no-password mode, md5(code) when a code is set. */
  function WithMarkers(crypto: EU.Crypto, sep: char, metaDir: string, password: string, code: Option<string>,
                       files: map<string, seq<Byte>>, random: nat -> EU.Draw): (r: map<string, seq<Byte>>)
    ensures files.Keys <= r.Keys
    ensures NoPwd(password) ==>
      Child(metaDir, sep, CONFIG_PASS) in r && r[Child(metaDir, sep, CONFIG_PASS)] == AsciiBytes(EU.RandomCharsOf(32, random))
    ensures StrUtils.IsNotEmpty(code) ==>
      Child(metaDir, sep, CONFIG_CODE) in r && r[Child(metaDir, sep, CONFIG_CODE)] == AsciiBytes(EU.Md5Hex(crypto.md5, code.value, false))
    ensures forall p :: p in files && p != Child(metaDir, sep, CONFIG_PASS) && p != Child(metaDir, sep, CONFIG_CODE) ==> r[p] == files[p]
  {
    var withPass := if NoPwd(password) then files[Child(metaDir, sep, CONFIG_PASS) := AsciiBytes(EU.RandomCharsOf(32, random))] else files;
    ChildApart(metaDir, sep, CONFIG_PASS, CONFIG_CODE);
    if StrUtils.IsNotEmpty(code) then withPass[Child(metaDir, sep, CONFIG_CODE) := AsciiBytes(EU.Md5Hex(crypto.md5, code.value, false))] else withPass
  }

  /** The working directory after `encryptClass`: the markers, the payloads and the password hash. */
  function EncryptedFiles(crypto: EU.Crypto, sep: char, tempWork: string, password: string, code: Option<string>,
                          files: map<string, seq<Byte>>, classFiles: seq<string>, random: nat -> EU.Draw): map<string, seq<Byte>>
    requires Encryptable(sep, files, classFiles)
  {
    var metaDir := MetaDir(tempWork, sep);
    var pw := ActivePassword(crypto.md5, password, random);
    var marked := WithMarkers(crypto, sep, metaDir, password, code, files, random);
    var stored := StoreAll(crypto, pw, code, sep, metaDir, marked, classFiles, PayloadNames(sep, classFiles, |classFiles|), |classFiles|);
    stored[Child(metaDir, sep, CONFIG_PASSHASH) := AsciiBytes(PassHash(crypto.md5, pw))]
  }

  /** Config names that no payload may take. */
  predicate NotConfigName(name: string) {
    name != CONFIG_PASS && name != CONFIG_CODE && name != CONFIG_PASSHASH
  }

  /** A config file is no payload path. */
  lemma ConfigApart(metaDir: string, sep: char, config: string, names: seq<string>)
    requires forall k :: 0 <= k < |names| ==> names[k] != config
    ensures forall k :: 0 <= k < |names| ==> Child(metaDir, sep, config) != Child(metaDir, sep, names[k])
  {
    forall k | 0 <= k < |names| ensures Child(metaDir, sep, config) != Child(metaDir, sep, names[k]) {
      ChildApart(metaDir, sep, config, names[k]);
    }
  }

  /** After `encryptClass` the marker files hold what the runtime reads back. */
  lemma EncryptedMarkers(crypto: EU.Crypto, sep: char, tempWork: string, password: string, code: Option<string>,
                         files: map<string, seq<Byte>>, classFiles: seq<string>, random: nat -> EU.Draw)
    requires Encryptable(sep, files, classFiles)
    requires forall k :: 0 <= k < |classFiles| ==> NotConfigName(PayloadName(sep, classFiles[k]))
    ensures var r := EncryptedFiles(crypto, sep, tempWork, password, code, files, classFiles, random);
      var metaDir := MetaDir(tempWork, sep);
      Child(metaDir, sep, CONFIG_PASSHASH) in r
      && r[Child(metaDir, sep, CONFIG_PASSHASH)] == AsciiBytes(PassHash(crypto.md5, ActivePassword(crypto.md5, password, random)))
      && (NoPwd(password) ==>
            Child(metaDir, sep, CONFIG_PASS) in r && r[Child(metaDir, sep, CONFIG_PASS)] == AsciiBytes(EU.RandomCharsOf(32, random)))
      && (StrUtils.IsNotEmpty(code) ==>
            Child(metaDir, sep, CONFIG_CODE) in r && r[Child(metaDir, sep, CONFIG_CODE)] == AsciiBytes(EU.Md5Hex(crypto.md5, code.value, false)))
  {
    var metaDir := MetaDir(tempWork, sep);
    var pw := ActivePassword(crypto.md5, password, random);
    var marked := WithMarkers(crypto, sep, metaDir, password, code, files, random);
    var names := PayloadNames(sep, classFiles, |classFiles|);
    assert AllPresent(marked, classFiles);
    ChildApart(metaDir, sep, CONFIG_PASS, CONFIG_PASSHASH);
    ChildApart(metaDir, sep, CONFIG_CODE, CONFIG_PASSHASH);
    if NoPwd(password) {
      ConfigApart(metaDir, sep, CONFIG_PASS, names);
      StoreAllUntouched(crypto, pw, code, sep, metaDir, marked, classFiles, names, |classFiles|, Child(metaDir, sep, CONFIG_PASS));
    }
    if StrUtils.IsNotEmpty(code) {
      ConfigApart(metaDir, sep, CONFIG_CODE, names);
      StoreAllUntouched(crypto, pw, code, sep, metaDir, marked, classFiles, names, |classFiles|, Child(metaDir, sep, CONFIG_CODE));
    }
  }

  /** After `encryptClass` every class file's payload holds its original content under the layered keys. */
  lemma EncryptedPayload(crypto: EU.Crypto, sep: char, tempWork: string, password: string, code: Option<string>,
                         files: map<string, seq<Byte>>, classFiles: seq<string>, random: nat -> EU.Draw, i: nat)
    requires Encryptable(sep, files, classFiles)
    requires PathsApart(sep, MetaDir(tempWork, sep), classFiles, PayloadNames(sep, classFiles, |classFiles|))
    requires forall k :: 0 <= k < |classFiles| ==> NotConfigName(PayloadName(sep, classFiles[k]))
    requires forall k :: 0 <= k < |classFiles| ==>
      classFiles[k] != Child(MetaDir(tempWork, sep), sep, CONFIG_PASS) && classFiles[k] != Child(MetaDir(tempWork, sep), sep, CONFIG_CODE)
    requires i < |classFiles|
    ensures var name := PayloadName(sep, classFiles[i]);
      var r := EncryptedFiles(crypto, sep, tempWork, password, code, files, classFiles, random);
      Child(MetaDir(tempWork, sep), sep, name) in r
      && r[Child(MetaDir(tempWork, sep), sep, name)]
         == Payload(crypto, ActivePassword(crypto.md5, password, random), code, name, files[classFiles[i]])
  {
    var metaDir := MetaDir(tempWork, sep);
    var pw := ActivePassword(crypto.md5, password, random);
    var marked := WithMarkers(crypto, sep, metaDir, password, code, files, random);
    var names := PayloadNames(sep, classFiles, |classFiles|);
    assert marked[classFiles[i]] == files[classFiles[i]];
    assert AllPresent(marked, classFiles);
    StoreAllPayload(crypto, pw, code, sep, metaDir, marked, classFiles, names, |classFiles|, i);
    ChildApart(metaDir, sep, CONFIG_PASSHASH, names[i]);
  }

  // ---------------------------------------------------------------- clearClassMethod

  /** The working directory after the first `n` rounds of `clearClassMethod`: a class whose body stripping fails keeps its bytes. */
  function Stripped(sep: char, files: map<string, seq<Byte>>, classFiles: seq<string>, strip: string -> Option<seq<Byte>>, n: nat): map<string, seq<Byte>>
    requires AllResolvable(sep, classFiles) && n <= |classFiles|
  {
    if n == 0 then files
    else
      if strip(ClassInfoOf(sep, classFiles[n - 1]).className).Some?
      then Stripped(sep, files, classFiles, strip, n - 1)[classFiles[n - 1] := strip(ClassInfoOf(sep, classFiles[n - 1]).className).value]
      else Stripped(sep, files, classFiles, strip, n - 1)
  }

  /** One unfolding of `Stripped`, the step of the `clearClassMethod` loop. */
  lemma StrippedStep(sep: char, files: map<string, seq<Byte>>, classFiles: seq<string>, strip: string -> Option<seq<Byte>>, i: nat)
    requires AllResolvable(sep, classFiles) && i < |classFiles|
    ensures var bts := strip(ClassInfoOf(sep, classFiles[i]).className);
      Stripped(sep, files, classFiles, strip, i + 1)
      == if bts.Some? then Stripped(sep, files, classFiles, strip, i)[classFiles[i] := bts.value]
         else Stripped(sep, files, classFiles, strip, i)
  {
  }

  /** Pointwise: a stripped class gets its new bytes; every other path, including each payload, is unchanged. */
  lemma {:induction false} StrippedAt(sep: char, files: map<string, seq<Byte>>, classFiles: seq<string>,
                                   strip: string -> Option<seq<Byte>>, n: nat, p: string)
    requires AllResolvable(sep, classFiles) && n <= |classFiles|
    ensures var r := Stripped(sep, files, classFiles, strip, n);
      if p in classFiles[..n] && strip(ClassInfoOf(sep, p).className).Some? then
        p in r && r[p] == strip(ClassInfoOf(sep, p).className).value
      else
        (p in r <==> p in files) && (p in files ==> r[p] == files[p])
  {
    if n > 0 {
      Seqs.TakeSnoc(classFiles, n - 1);
      StrippedStep(sep, files, classFiles, strip, n - 1);
      StrippedAt(sep, files, classFiles, strip, n - 1, p);
    }
  }

  // ---------------------------------------------------------------- the manifest

  /** The line that makes the agent start with the application. */
  const PREMAIN_LINE: string := "Premain-Class: com.hz.classfinal.CoreAgent"

  /** The manifest line naming the application's main class. */
  predicate MainClassLine(line: string) {
    StartsWith(line, "Main-Class:")
  }

  /** The lines of `META-INF/MANIFEST.MF` as split at CRLF; a missing manifest has none. */
  function ManifestLines(text: Option<string>): (lines: seq<string>)
    ensures forall i :: 0 <= i < |lines| ==> !Contains(lines[i], "\r\n")
    ensures lines != [] && lines[|lines| - 1] == [] ==> lines == [[]]
    ensures text.None? ==> lines == []
  {
    if text.None? then []
    else
      SplitPieces(text.value, "\r\n");
      Split(text.value, "\r\n")
  }

  /**
   * The manifest `encryptJar`/`encryptWar` writes back: the old lines with the
   * Premain-Class line inserted before the Main-Class line (or last), each
   * ended by CRLF, then one more blank line.
   */
  function AgentManifest(text: Option<string>): string {
    StrUtils.CrlfLines(StrUtils.InsertedLines(ManifestLines(text), PREMAIN_LINE, MainClassLine)) + "\r\n\r\n"
  }

  /** The Premain-Class line holds no line end. */
  lemma PremainLineHasNoCrlf()
    ensures !Contains(PREMAIN_LINE, "\r\n")
  {
    assert forall k :: 0 <= k < |PREMAIN_LINE| ==> PREMAIN_LINE[k] != '\r';
    StrUtils.NoCrNoCrlf(PREMAIN_LINE);
  }

  /** Reading the written manifest back gives exactly the old lines with the Premain-Class line inserted. */
  lemma ManifestReadBack(text: Option<string>)
    ensures ManifestLines(Some(AgentManifest(text))) == StrUtils.InsertedLines(ManifestLines(text), PREMAIN_LINE, MainClassLine)
  {
    var items := ManifestLines(text);
    var lines := StrUtils.InsertedLines(items, PREMAIN_LINE, MainClassLine);
    PremainLineHasNoCrlf();
    StrUtils.InsertedLinesKeep(items, PREMAIN_LINE, MainClassLine, "\r\n");
    if StrUtils.FirstMatch(items, MainClassLine) < |items| {
      assert MainClassLine(items[StrUtils.FirstMatch(items, MainClassLine)]);
    }
    StrUtils.SplitCrlfLines(lines);
  }


  /** Every run adds one Premain-Class line: packaging an already packaged jar repeats the line. */
  lemma ManifestGrows(text: Option<string>)
    ensures |ManifestLines(Some(AgentManifest(text)))| == |ManifestLines(text)| + 1
    ensures PREMAIN_LINE in ManifestLines(Some(AgentManifest(text)))
  {
    ManifestReadBack(text);
    var lines := StrUtils.InsertedLines(ManifestLines(text), PREMAIN_LINE, MainClassLine);
    assert lines[StrUtils.FirstMatch(ManifestLines(text), MainClassLine)] == PREMAIN_LINE;
  }

  /** Without a manifest the file holds the Premain-Class line and two blank lines. */
  lemma FreshManifest()
    ensures AgentManifest(None) == PREMAIN_LINE + "\r\n\r\n\r\n"
  {
    var lines := StrUtils.InsertedLines([], PREMAIN_LINE, MainClassLine);
    assert lines == [PREMAIN_LINE];
    StrUtils.CrlfLinesSnoc([], PREMAIN_LINE);
    assert [] + [PREMAIN_LINE] == [PREMAIN_LINE];
  }

  // ---------------------------------------------------------------- the encryptor

  /** The state of one encryption run, over the unpacked working directory `files`. */
  class Encryptor {
    const sep: char
    const crypto: EU.Crypto
    var zipPath: Option<string>
    var packages: Option<seq<string>>
    var includeJars: Option<seq<string>>
    var excludeClass: Option<seq<string>>
    var password: Option<string>
    var code: Option<string>
    var extName: Option<string>
    var jarOrWar: Option<bool>
    var tempWork: Option<string>
    var libDir: Option<string>
    var classesDir: Option<string>
    var encryptFileCount: Option<nat>
    var resolveClassInfo: map<string, ClassInfo>
    var files: map<string, seq<Byte>>

    /** `new JarEncryptor(zipPath, password)` over a working directory; the setters assign the list fields. */
    constructor (sep: char, crypto: EU.Crypto, zipPath: Option<string>, password: Option<string>, files: map<string, seq<Byte>>)
      ensures this.sep == sep && this.crypto == crypto && this.zipPath == zipPath && this.password == password
      ensures packages.None? && includeJars.None? && excludeClass.None? && code.None?
      ensures extName.None? && jarOrWar.None? && tempWork.None? && libDir.None? && classesDir.None? && encryptFileCount.None?
      ensures resolveClassInfo == map[] && this.files == files
    {
      this.sep := sep;
      this.crypto := crypto;
      this.zipPath := zipPath;
      this.password := password;
      packages := None;
      includeJars := None;
      excludeClass := None;
      code := None;
      extName := None;
      jarOrWar := None;
      tempWork := None;
      libDir := None;
      classesDir := None;
      encryptFileCount := None;
      resolveClassInfo := map[];
      this.files := files;
    }

    /** Every memo entry is what `resolveClassName` computes for its path. */
    predicate MemoValid()
      reads this`resolveClassInfo
    {
      forall p :: p in resolveClassInfo ==> Resolvable(sep, p) && resolveClassInfo[p] == ClassInfoOf(sep, p)
    }

    /** `initParam()`; the existence test of the file is a parameter and a failure is returned instead of thrown. */
    method InitParam(fileExists: bool) returns (err: Option<InitError>)
      modifies this`extName, this`jarOrWar, this`tempWork, this`libDir, this`classesDir
      ensures err == InitCheck(zipPath, fileExists, password)
      ensures err.None? ==>
        extName == Some(ExtName(zipPath.value)) && jarOrWar == Some(extName.value == "jar")
        && tempWork == Some(TempWorkName(zipPath.value, jarOrWar.value))
        && libDir == Some(InfDir(tempWork.value, sep, jarOrWar.value, "lib"))
        && classesDir == Some(InfDir(tempWork.value, sep, jarOrWar.value, "classes"))
      ensures err == Some(EmptyPassword) ==>
        extName == Some(ExtName(zipPath.value)) && jarOrWar == Some(extName.value == "jar")
        && tempWork == old(tempWork) && libDir == old(libDir) && classesDir == old(classesDir)
      ensures err == Some(BadFormat) ==>
        (if '.' in zipPath.value then extName == Some(ExtName(zipPath.value)) else extName == old(extName))
        && jarOrWar == old(jarOrWar) && tempWork == old(tempWork) && libDir == old(libDir) && classesDir == old(classesDir)
      ensures err == Some(NoZipPath) || err == Some(FileMissing) ==>
        extName == old(extName) && jarOrWar == old(jarOrWar) && tempWork == old(tempWork)
        && libDir == old(libDir) && classesDir == old(classesDir)
    {
      if zipPath.None? {
        return Some(NoZipPath);
      }
      if !fileExists {
        return Some(FileMissing);
      }
      var path := zipPath.value;
      var extIndex := LastIndexOfChar(path, '.');
      if extIndex == -1 {
        return Some(BadFormat);
      }
      extName := Some(path[extIndex + 1..]);
      if extName.value == "jar" {
        jarOrWar := Some(true);
      } else if extName.value == "war" {
        jarOrWar := Some(false);
      } else {
        return Some(BadFormat);
      }
      if password.None? || |password.value| == 0 {
        return Some(EmptyPassword);
      }
      var work := Replace(path, if jarOrWar.value then JAR_EXT else WAR_EXT, TEMP_SUFFIX);
      tempWork := Some(work);
      var inf := if jarOrWar.value then "BOOT-INF" else WEB_INF;
      libDir := Some(Child(work, sep, inf + [sep] + "lib"));
      classesDir := Some(Child(work, sep, inf + [sep] + "classes"));
      err := None;
    }

    /** `isNoPwdMode()`; a null password is a NullPointerException in Java. */
    method IsNoPwdMode() returns (r: bool)
      requires password.Some?
      ensures r <==> password == Some("#")
    {
      var pw := password.value;
      r := |pw| == 1 && pw[0] == '#';
      assert |pw| == 1 ==> pw == [pw[0]];
    }

    /**
     * `resolveClassName(fileName, classOrPath)`: a memo hit returns the stored value, a miss
     * stores both values; a path shorter than `.class` or with `RawStart` past the stem makes
     * `substring` raise StringIndexOutOfBoundsException, and the memo is left as it was.
     */
    method ResolveClassName(fileName: string, classOrPath: bool) returns (r: Result<string>)
      requires MemoValid()
      modifies this`resolveClassInfo
      ensures r.Ok? <==> Resolvable(sep, fileName)
      ensures r.Ok? ==> r.value == if classOrPath then ClassInfoOf(sep, fileName).className else ClassInfoOf(sep, fileName).codeLocation
      ensures r.Err? ==> r.reason == INDEX_OUT_OF_BOUNDS
      ensures resolveClassInfo.Keys == old(resolveClassInfo).Keys + (if r.Ok? then {fileName} else {})
      ensures fileName in old(resolveClassInfo) || r.Err? ==> resolveClassInfo == old(resolveClassInfo)
      ensures MemoValid()
    {
      if fileName in resolveClassInfo {
        var node := resolveClassInfo[fileName];
        r := Ok(if classOrPath then node.className else node.codeLocation);
        return;
      }
      if |fileName| < 6 {
        return Err(INDEX_OUT_OF_BOUNDS);
      }
      var f := fileName[..|fileName| - 6];
      var start := RawStart(sep, f);
      if start > |f| {
        return Err(INDEX_OUT_OF_BOUNDS);
      }
      var className := f[start..];
      var codeLocation := f[..|f| - |className| - 1];
      var resolvedClassName := Replace(className, [sep], ".");
      var node := ClassInfo(resolvedClassName, codeLocation);
      assert node == ClassInfoOf(sep, fileName);
      resolveClassInfo := resolveClassInfo[fileName := node];
      r := Ok(if classOrPath then resolvedClassName else codeLocation);
    }

    /** The test `extractClasses` applies to one `.class` path: its class name is in `packages` and not in `excludeClass`. */
    method IsSelectedClass(path: string) returns (selected: Result<bool>)
      requires MemoValid()
      modifies this`resolveClassInfo
      ensures selected.Ok? <==> Resolvable(sep, path)
      ensures selected.Ok? ==> selected.value == ClassSelected(sep, packages, excludeClass, path)
      ensures MemoValid()
      ensures resolveClassInfo.Keys == old(resolveClassInfo).Keys + (if selected.Ok? then {path} else {})
    {
      var className := ResolveClassName(path, true);
      if className.Err? {
        return Err(className.reason);
      }
      var included := StrUtils.IsMatchAny(packages, className.value, false);
      var excluded := StrUtils.IsMatchAny(excludeClass, className.value, false);
      selected := Ok(included && !excluded);
    }

    /** One path of `extractClasses`: a `.class` path is resolved and kept when its class is selected. */
    method KeepsPath(path: string) returns (keep: Result<bool>)
      requires MemoValid()
      modifies this`resolveClassInfo
      ensures keep.Ok? <==> (EndsWith(path, CLASS_EXT) ==> Resolvable(sep, path))
      ensures keep.Ok? ==> keep.value == SelectsPath(sep, packages, excludeClass, path)
      ensures MemoValid()
      ensures resolveClassInfo.Keys == old(resolveClassInfo).Keys + (if EndsWith(path, CLASS_EXT) && keep.Ok? then {path} else {})
    {
      keep := Ok(false);
      if EndsWith(path, CLASS_EXT) {
        keep := IsSelectedClass(path);
      }
    }

    /**
     * `extractClasses(allFilePath)`: the selected `.class` paths, in order; the first path that
     * cannot be resolved ends the walk with its exception, after the memo has taken every
     * `.class` path before it.
     */
    method ExtractClasses(allFilePath: seq<string>) returns (r: Result<seq<string>>)
      requires MemoValid()
      modifies this`resolveClassInfo
      ensures r.Ok? <==> ClassPathsResolvable(sep, allFilePath)
      ensures r.Ok? ==> r.value == Selected(sep, packages, excludeClass, allFilePath, |allFilePath|)
      ensures MemoValid()
      ensures resolveClassInfo.Keys == old(resolveClassInfo).Keys + ClassSet(allFilePath[..FirstUnresolvable(sep, allFilePath)])
    {
      var classFiles := [];
      var stop := FirstUnresolvable(sep, allFilePath);
      for i := 0 to |allFilePath|
        invariant MemoValid()
        invariant i <= stop
        invariant classFiles == Selected(sep, packages, excludeClass, allFilePath, i)
        invariant resolveClassInfo.Keys == old(resolveClassInfo).Keys + ClassSet(allFilePath[..i])
      {
        var path := allFilePath[i];
        Seqs.TakeSnoc(allFilePath, i);
        ClassSetSnoc(allFilePath[..i], path);
        SelectedStep(sep, packages, excludeClass, allFilePath, i);
        var keep := KeepsPath(path);
        if keep.Err? {
          assert i == stop;
          return Err(keep.reason);
        }
        assert i != stop by {
          assert stop < |allFilePath| ==> !(EndsWith(allFilePath[stop], CLASS_EXT) ==> Resolvable(sep, allFilePath[stop]));
        }
        if keep.value {
          classFiles := classFiles + [path];
        }
      }
      assert allFilePath[..|allFilePath|] == allFilePath;
      r := Ok(classFiles);
    }

    /** The name `encryptClass` stores a file's payload under: the class name of a `.class` file, else the simple name. */
    method PayloadFileName(classFile: string) returns (className: string)
      requires MemoValid() && NameResolvable(sep, classFile)
      modifies this`resolveClassInfo
      ensures className == PayloadName(sep, classFile)
      ensures MemoValid()
      ensures resolveClassInfo.Keys == old(resolveClassInfo).Keys
        + (if EndsWith(JarUtils.SimpleName(classFile, sep), CLASS_EXT) then {classFile} else {})
    {
      className := JarUtils.SimpleName(classFile, sep);
      if EndsWith(className, CLASS_EXT) {
        var resolved := ResolveClassName(classFile, true);
        className := resolved.value;
      }
    }

    /** One pass of the payload loop: the class file's content, encrypted, stored under its class name. */
    method StorePayload(classFile: string, metaDir: string, pw: string) returns (className: string)
      requires MemoValid() && NameResolvable(sep, classFile) && classFile in files
      modifies this`files, this`resolveClassInfo
      ensures className == PayloadName(sep, classFile)
      ensures files == old(files)[Child(metaDir, sep, className) := Payload(crypto, pw, code, className, old(files)[classFile])]
      ensures MemoValid()
      ensures resolveClassInfo.Keys == old(resolveClassInfo).Keys
        + (if EndsWith(JarUtils.SimpleName(classFile, sep), CLASS_EXT) then {classFile} else {})
    {
      className := PayloadFileName(classFile);
      var classBytes := EncryptPayload(files[classFile], pw, className);
      files := files[Child(metaDir, sep, className) := classBytes];
    }

    /** The two encryption layers of one payload: under `pw‖className`, then under `className‖code` when a code is set. */
    method EncryptPayload(bytes: seq<Byte>, pw: string, className: string) returns (classBytes: seq<Byte>)
      ensures classBytes == Payload(crypto, pw, code, className, bytes)
    {
      var pass := pw + className;
      classBytes := EU.Encryption(crypto, bytes, pass, Constants.ENCRYPT_TYPE).value;
      if StrUtils.IsNotEmpty(code) {
        pass := className + code.value;
        classBytes := EU.Encryption(crypto, classBytes, pass, Constants.ENCRYPT_TYPE).value;
      }
    }

    /** The state of the payload loop after `i` rounds, from the working directory `start` and the memo keys `known`. */
    ghost predicate StoredUpTo(classFiles: seq<string>, i: nat, metaDir: string, pw: string,
                               names: seq<string>, start: map<string, seq<Byte>>, known: set<string>)
      reads this
    {
      && i <= |classFiles| && Encryptable(sep, start, classFiles)
      && names == PayloadNames(sep, classFiles, |classFiles|)
      && MemoValid()
      && files == StoreAll(crypto, pw, code, sep, metaDir, start, classFiles, names, i)
      && resolveClassInfo.Keys == known + NamedClassSet(sep, classFiles[..i])
    }

    /** Round `i` of the payload loop, from the loop's state before it to its state after it. */
    method StoreNext(classFiles: seq<string>, i: nat, metaDir: string, pw: string,
                     ghost names: seq<string>, ghost start: map<string, seq<Byte>>, ghost known: set<string>,
                     encrypted: seq<string>) returns (encryptClasses: seq<string>)
      requires i < |classFiles| && StoredUpTo(classFiles, i, metaDir, pw, names, start, known)
      requires encrypted == names[..i]
      modifies this`files, this`resolveClassInfo
      ensures encryptClasses == names[..i + 1]
      ensures StoredUpTo(classFiles, i + 1, metaDir, pw, names, start, known)
    {
      NamedClassSetStep(sep, known, classFiles, i);
      StoreAllStep(crypto, pw, code, sep, metaDir, start, classFiles, names, i);
      var className := StorePayload(classFiles[i], metaDir, pw);
      Seqs.TakeSnoc(names, i);
      encryptClasses := encrypted + [className];
    }

    /** The payload loop of `encryptClass`: one encrypted copy per class file, under `metaDir`. */
    method StorePayloads(classFiles: seq<string>, metaDir: string, ghost names: seq<string>) returns (encryptClasses: seq<string>)
      requires MemoValid() && password.Some? && Encryptable(sep, files, classFiles)
      requires names == PayloadNames(sep, classFiles, |classFiles|)
      modifies this`files, this`resolveClassInfo
      ensures files == StoreAll(crypto, password.value, code, sep, metaDir, old(files), classFiles, names, |classFiles|)
      ensures encryptClasses == names
      ensures MemoValid()
      ensures resolveClassInfo.Keys == old(resolveClassInfo).Keys + NamedClassSet(sep, classFiles)
    {
      ghost var start := files;
      ghost var known := resolveClassInfo.Keys;
      var pw := password.value;
      encryptClasses := [];
      for i := 0 to |classFiles|
        invariant StoredUpTo(classFiles, i, metaDir, pw, names, start, known)
        invariant encryptClasses == names[..i]
      {
        encryptClasses := StoreNext(classFiles, i, metaDir, pw, names, start, known, encryptClasses);
      }
      assert classFiles[..|classFiles|] == classFiles;
      assert names[..|names|] == names;
    }

    /** The marker files `encryptClass` writes first: the random password's seed in no-password mode, md5 of the machine code. */
    method WriteMarkers(metaDir: string, random: nat -> EU.Draw)
      requires password.Some?
      modifies this`password, this`files
      ensures password == Some(ActivePassword(crypto.md5, old(password).value, random))
      ensures files == WithMarkers(crypto, sep, metaDir, old(password).value, code, old(files), random)
    {
      var noPwd := IsNoPwdMode();
      if noPwd {
        var randChars := EU.RandomChars(32, random);
        var pw := EU.Md5(crypto.md5, randChars, false);
        password := Some(pw);
        files := files[Child(metaDir, sep, CONFIG_PASS) := AsciiBytes(randChars)];
      }
      if StrUtils.IsNotEmpty(code) {
        var marker := EU.Md5(crypto.md5, code.value, false);
        files := files[Child(metaDir, sep, CONFIG_CODE) := AsciiBytes(marker)];
      }
    }

    /** The salted double md5 of the password, written last. */
    method WritePassHash(metaDir: string)
      requires password.Some?
      modifies this`files
      ensures files == old(files)[Child(metaDir, sep, CONFIG_PASSHASH) := AsciiBytes(PassHash(crypto.md5, password.value))]
    {
      var pchar := EU.Md5(crypto.md5, password.value + EU.SALT, false);
      pchar := EU.Md5(crypto.md5, EU.SALT + pchar, false);
      files := files[Child(metaDir, sep, CONFIG_PASSHASH) := AsciiBytes(pchar)];
    }

    /** `encryptClass(classFiles)`; draw i of `randomChars` is `random(i)`. */
    method EncryptClass(classFiles: seq<string>, random: nat -> EU.Draw) returns (encryptClasses: seq<string>)
      requires MemoValid() && password.Some? && tempWork.Some?
      requires Encryptable(sep, files, classFiles)
      modifies this`password, this`files, this`resolveClassInfo
      ensures password == Some(ActivePassword(crypto.md5, old(password).value, random))
      ensures files == EncryptedFiles(crypto, sep, tempWork.value, old(password).value, code, old(files), classFiles, random)
      ensures encryptClasses == PayloadNames(sep, classFiles, |classFiles|)
      ensures MemoValid()
      ensures resolveClassInfo.Keys == old(resolveClassInfo).Keys + NamedClassSet(sep, classFiles)
    {
      var metaDir := Child(tempWork.value, sep, META_INF + [sep] + FILE_NAME);
      ghost var names := PayloadNames(sep, classFiles, |classFiles|);
      WriteMarkers(metaDir, random);
      ghost var marked := files;
      assert AllPresent(marked, classFiles);
      encryptClasses := StorePayloads(classFiles, metaDir, names);
      WritePassHash(metaDir);
    }

    /** The state of the `clearClassMethod` loop after `i` rounds, from the working directory `start` and the memo keys `known`. */
    ghost predicate StrippedUpTo(classFiles: seq<string>, strip: string -> Option<seq<Byte>>, i: nat,
                                 start: map<string, seq<Byte>>, known: set<string>)
      reads this
    {
      && i <= |classFiles| && AllResolvable(sep, classFiles)
      && MemoValid()
      && files == Stripped(sep, start, classFiles, strip, i)
      && resolveClassInfo.Keys == known + Elements(classFiles[..i])
    }

    /** Round `i` of `clearClassMethod`: `rewriteAllMethods` on the class, whose bytes are replaced unless it throws. */
    method StripNext(classFiles: seq<string>, strip: string -> Option<seq<Byte>>, i: nat,
                     ghost start: map<string, seq<Byte>>, ghost known: set<string>)
      requires i < |classFiles| && StrippedUpTo(classFiles, strip, i, start, known)
      modifies this`files, this`resolveClassInfo
      ensures StrippedUpTo(classFiles, strip, i + 1, start, known)
    {
      var classFile := classFiles[i];
      Seqs.TakeSnoc(classFiles, i);
      ElementsSnoc(classFiles[..i], classFile);
      StrippedStep(sep, start, classFiles, strip, i);
      var resolved := ResolveClassName(classFile, true);
      var className := resolved.value;
      var bts := strip(className);
      if bts.Some? {
        files := files[classFile := bts.value];
      }
    }

    /** The failure-skip rule of `clearClassMethod`; the body stripping is `strip`, which fails with `None`. */
    method ClearClassMethod(classFiles: seq<string>, strip: string -> Option<seq<Byte>>)
      requires MemoValid() && AllResolvable(sep, classFiles)
      modifies this`files, this`resolveClassInfo
      ensures files == Stripped(sep, old(files), classFiles, strip, |classFiles|)
      ensures MemoValid()
      ensures resolveClassInfo.Keys == old(resolveClassInfo).Keys + Elements(classFiles)
    {
      ghost var start := files;
      ghost var known := resolveClassInfo.Keys;
      for i := 0 to |classFiles|
        invariant StrippedUpTo(classFiles, strip, i, start, known)
      {
        StripNext(classFiles, strip, i, start, known);
      }
      assert classFiles[..|classFiles|] == classFiles;
    }
  }
}
