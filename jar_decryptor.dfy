/**
 * The runtime half of ClassFinal (`JarDecryptor`): finding a payload under
 * `META-INF/.classes/` of the running jar or classes directory, checking the
 * machine code, and peeling the two encryption layers off again.
 */
module JarDecryptor {
  import opened Wrappers
  import opened Bytes
  import opened Strings
  import opened Constants
  import EU = EncryptUtils

  /** What reading a file gives: nothing there, its bytes, or an IOException. */
  datatype Fetch<+T> = Absent | Present(value: T) | Failed

  /** `File.separator`. */
  type Separator = c: char | c == '/' || c == '\\' witness '/'

  /**
   * The file system as the runtime sees it: regular files with their bytes,
   * and directories. A path is in at most one of the two.
   */
  datatype Disk = Disk(files: map<string, seq<Byte>>, dirs: set<string>)

  /**
   * What the runtime borrows from the platform: the cryptography,
   * `File.separator`, the zip reader (`extract(jar, entry)` is the entry's
   * bytes, `Absent` when there is no such entry, `Failed` when the archive
   * cannot be opened) and the UTF-8 decoder `StrUtils.toChars`.
   */
  datatype Runtime = Runtime(
    crypto: EU.Crypto,
    sep: Separator,
    extract: (seq<Byte>, string) -> Fetch<seq<Byte>>,
    utf8: seq<Byte> -> string)

  /** The decoder reads ASCII text back unchanged, as UTF-8 does. */
  ghost predicate DecodesAscii(utf8: seq<Byte> -> string) {
    forall s :: IsAscii(s) ==> utf8(AsciiBytes(s)) == s
  }

  /** `ENCRYPT_PATH`: the directory of the payloads, as a jar entry prefix. */
  const ENCRYPT_PATH: string := META_INF + "/" + FILE_NAME + "/"

  /** `java.io.File` reads `/` as the separator. */
  function FilePath(sep: char, s: string): string {
    ReplaceChar(s, '/', sep)
  }

  /** Something, file or directory, is at the path. */
  predicate Exists(d: Disk, path: string) {
    path in d.files || path in d.dirs
  }

  /** `java.io.File` drops the separators that end a path. */
  function DropTrailing(sep: char, s: string): (r: string)
    ensures |r| <= |s| && r == s[..|r|]
    ensures r == [] || r[|r| - 1] != sep
    ensures forall k :: |r| <= k < |s| ==> s[k] == sep
    ensures s != [] && s[|s| - 1] != sep ==> r == s
  {
    if s != [] && s[|s| - 1] == sep then DropTrailing(sep, s[..|s| - 1]) else s
  }

  /**
   * `new File(parent, child)`: the child loses its trailing separators; an
   * empty child names the parent itself, any other is joined to it by one
   * separator.
   */
  function FileOf(sep: char, parent: string, child: string): string
  {
    var p := FilePath(sep, parent);
    var c := DropTrailing(sep, FilePath(sep, child));
    if c == [] then p
    else if |p| > 0 && p[|p| - 1] == sep then p + c else p + [sep] + c
  }

  /** The joined path ends with the child without its trailing separators; an empty child gives the parent. */
  lemma FileOfEndsWithChild(sep: char, parent: string, child: string)
    ensures EndsWith(FileOf(sep, parent, child), DropTrailing(sep, FilePath(sep, child)))
    ensures DropTrailing(sep, FilePath(sep, child)) == [] ==> FileOf(sep, parent, child) == FilePath(sep, parent)
  {
  }

  /**
   * `readEncryptedFile(workDir, name)`: from the jar when `workDir` is a file,
   * else from `workDir/META-INF/.classes/name`, which may be missing
   * (`null`) or a directory (reading it throws).
   */
  function ReadEncryptedFile(rt: Runtime, d: Disk, workDir: string, name: string): (r: Fetch<seq<Byte>>)
    ensures FilePath(rt.sep, workDir) in d.files ==> r == rt.extract(d.files[FilePath(rt.sep, workDir)], ENCRYPT_PATH + name)
    ensures FilePath(rt.sep, workDir) !in d.files ==>
      (r.Present? <==> FileOf(rt.sep, workDir, ENCRYPT_PATH + name) in d.files)
  {
    var dir := FilePath(rt.sep, workDir);
    if dir in d.files then rt.extract(d.files[dir], ENCRYPT_PATH + name)
    else
      var file := FileOf(rt.sep, workDir, ENCRYPT_PATH + name);
      if file in d.files then Present(d.files[file])
      else if file in d.dirs then Failed
      else Absent
  }

  /** A parent and a child that neither ends in a separator are joined by one separator. */
  lemma FileOfJoin(sep: char, parent: string, child: string)
    requires FilePath(sep, parent) != [] && FilePath(sep, parent)[|parent| - 1] != sep
    requires FilePath(sep, child) != [] && FilePath(sep, child)[|child| - 1] != sep
    ensures FileOf(sep, parent, child) == FilePath(sep, parent) + [sep] + FilePath(sep, child)
  {
  }

  /** The payload directory `META-INF/.classes`, without the trailing `/` of `ENCRYPT_PATH`. */
  const PAYLOAD_DIR: string := META_INF + "/" + FILE_NAME

  /**
   * The empty name asks for `META-INF/.classes/` itself, which `java.io.File`
   * reads as the payload directory: reading it from a classes directory throws.
   */
  lemma EmptyNameReadsPayloadDirectory(rt: Runtime, d: Disk, workDir: string)
    requires FilePath(rt.sep, workDir) !in d.files
    requires FileOf(rt.sep, workDir, PAYLOAD_DIR) in d.dirs && FileOf(rt.sep, workDir, PAYLOAD_DIR) !in d.files
    ensures ReadEncryptedFile(rt, d, workDir, []) == Failed
  {
    var sep := rt.sep;
    var dir := FilePath(sep, PAYLOAD_DIR);
    assert ENCRYPT_PATH + [] == PAYLOAD_DIR + "/";
    assert FilePath(sep, PAYLOAD_DIR + "/") == dir + [sep];
    assert dir[|dir| - 1] == 's';
    assert DropTrailing(sep, dir + [sep]) == DropTrailing(sep, dir);
  }

  /** `readPassFromJar`: md5 of the hidden password chars, or `null` when they are missing. */
  function ReadPassFromJar(rt: Runtime, d: Disk, workDir: string): (r: Fetch<string>)
    ensures r.Present? ==> |r.value| == 32 && IsAscii(r.value)
    ensures r.Absent? <==> ReadEncryptedFile(rt, d, workDir, CONFIG_PASS).Absent?
  {
    match ReadEncryptedFile(rt, d, workDir, CONFIG_PASS)
    case Absent => Absent
    case Failed => Failed
    case Present(passBytes) =>
      EU.Md5HexIsAscii(rt.crypto.md5, rt.utf8(passBytes), false);
      Present(EU.Md5Hex(rt.crypto.md5, rt.utf8(passBytes), false))
  }

  /**
   * How `doDecrypt` ends: `null` (no payload for the name), `System.exit`,
   * an exception, or the decrypted bytes.
   */
  datatype Decrypted = NotProtected | Exit(status: int) | Thrown | Plain(bytes: seq<Byte>)

  /** The password that unlocks the payloads: in no-password mode the one hidden in the jar. */
  function UnlockPassword(rt: Runtime, d: Disk, jarPath: string, password: string): (r: Fetch<string>)
    ensures password != "#" ==> r == Present(password)
  {
    if password == "#" then ReadPassFromJar(rt, d, jarPath) else Present(password)
  }

  /** The password layer: decryption under `password‖fileName`; a missing password makes `merger` throw. */
  function PasswordLayer(rt: Runtime, d: Disk, jarPath: string, fileName: string, password: string, bytes: seq<Byte>): (r: Decrypted)
    ensures r.Plain? ==> |r.bytes| == |bytes|
    ensures r.Plain? <==> UnlockPassword(rt, d, jarPath, password).Present?
  {
    match UnlockPassword(rt, d, jarPath, password)
    case Present(pw) => Plain(EU.Decryption(rt.crypto, bytes, pw + fileName, ENCRYPT_TYPE).value)
    case _ => Thrown
  }

  /**
   * The class-file decryptor. `code` is the machine code of the host,
   * computed once when the singleton is made.
   */
  datatype JarDecryptor = JarDecryptor(code: string)

  /**
   * `doDecrypt(jarPath, fileName, password)`. No payload gives `null`. A
   * machine-code marker that is not md5 of this machine's code exits with -1;
   * a matching one means the machine layer (key `fileName‖code`) comes off
   * first. The password layer (key `password‖fileName`) comes off last.
   */
  function DoDecrypt(dec: JarDecryptor, rt: Runtime, d: Disk, jarPath: string, fileName: string, password: string): (r: Decrypted)
    ensures ReadEncryptedFile(rt, d, jarPath, fileName).Absent? <==> r.NotProtected?
    ensures r.Exit? ==>
      r.status == -1
      && ReadEncryptedFile(rt, d, jarPath, CONFIG_CODE).Present?
      && rt.utf8(ReadEncryptedFile(rt, d, jarPath, CONFIG_CODE).value) != EU.Md5Hex(rt.crypto.md5, dec.code, false)
    ensures r.Plain? ==>
      ReadEncryptedFile(rt, d, jarPath, fileName).Present?
      && |r.bytes| == |ReadEncryptedFile(rt, d, jarPath, fileName).value|
  {
    match ReadEncryptedFile(rt, d, jarPath, fileName)
    case Absent => NotProtected
    case Failed => Thrown
    case Present(bytes) =>
      match ReadEncryptedFile(rt, d, jarPath, CONFIG_CODE)
      case Failed => Thrown
      case Absent => PasswordLayer(rt, d, jarPath, fileName, password, bytes)
      case Present(codeBytes) =>
        if EU.Md5Hex(rt.crypto.md5, dec.code, false) != rt.utf8(codeBytes) then Exit(-1)
        else PasswordLayer(rt, d, jarPath, fileName, password, EU.Decryption(rt.crypto, bytes, fileName + dec.code, ENCRYPT_TYPE).value)
  }

  /**
   * `doDecrypt` step by step: `bytes` loses the machine layer when there is a
   * code marker, `password` is swapped for the hidden one in no-password
   * mode, and the password layer comes off last.
   */
  method Decrypt(dec: JarDecryptor, rt: Runtime, d: Disk, jarPath: string, fileName: string, password: string)
    returns (r: Decrypted)
    ensures r == DoDecrypt(dec, rt, d, jarPath, fileName, password)
  {
    var read := ReadEncryptedFile(rt, d, jarPath, fileName);
    if read.Absent? {
      return NotProtected;
    } else if read.Failed? {
      return Thrown;
    }
    var bytes := read.value;
    var codeBytes := ReadEncryptedFile(rt, d, jarPath, CONFIG_CODE);
    if codeBytes.Failed? {
      return Thrown;
    }
    if codeBytes.Present? {
      var hex := EU.Md5(rt.crypto.md5, dec.code, false);
      if hex != rt.utf8(codeBytes.value) {
        return Exit(-1);
      }
      bytes := EU.Decryption(rt.crypto, bytes, fileName + dec.code, ENCRYPT_TYPE).value;
    }
    var pw := Present(password);
    if password == "#" {
      pw := ReadPassFromJar(rt, d, jarPath);
    }
    if !pw.Present? {
      return Thrown;
    }
    bytes := EU.Decryption(rt.crypto, bytes, pw.value + fileName, ENCRYPT_TYPE).value;
    r := Plain(bytes);
  }

  /** With a payload present, everything but a machine mismatch or a failing read hinges on the password alone. */
  lemma NoMarkerMeansPasswordOnly(dec: JarDecryptor, rt: Runtime, d: Disk, jarPath: string, fileName: string, password: string)
    requires ReadEncryptedFile(rt, d, jarPath, fileName).Present?
    requires ReadEncryptedFile(rt, d, jarPath, CONFIG_CODE).Absent?
    ensures DoDecrypt(dec, rt, d, jarPath, fileName, password)
      == PasswordLayer(rt, d, jarPath, fileName, password, ReadEncryptedFile(rt, d, jarPath, fileName).value)
  {
  }

  /** No-password mode with no hidden password in the jar fails in `merger`, whatever the payload. */
  lemma HiddenPasswordMissing(dec: JarDecryptor, rt: Runtime, d: Disk, jarPath: string, fileName: string)
    requires ReadEncryptedFile(rt, d, jarPath, fileName).Present?
    requires ReadEncryptedFile(rt, d, jarPath, CONFIG_CODE).Absent?
    requires ReadEncryptedFile(rt, d, jarPath, CONFIG_PASS).Absent?
    ensures DoDecrypt(dec, rt, d, jarPath, fileName, "#") == Thrown
  {
  }

  /**
   * The two layers come off in the reverse order of encryption: the bytes
   * `doDecrypt` returns are the payload with the machine layer, then the
   * password layer, undone.
   */
  lemma LayerOrder(dec: JarDecryptor, rt: Runtime, d: Disk, jarPath: string, fileName: string, password: string)
    requires ReadEncryptedFile(rt, d, jarPath, fileName).Present?
    requires ReadEncryptedFile(rt, d, jarPath, CONFIG_CODE).Present?
    requires rt.utf8(ReadEncryptedFile(rt, d, jarPath, CONFIG_CODE).value) == EU.Md5Hex(rt.crypto.md5, dec.code, false)
    requires password != "#"
    ensures DoDecrypt(dec, rt, d, jarPath, fileName, password)
      == Plain(EU.XorMd5(rt.crypto.md5, EU.XorMd5(rt.crypto.md5, ReadEncryptedFile(rt, d, jarPath, fileName).value, fileName + dec.code), password + fileName))
  {
  }

  // ---------------------------------------------------------------- decryptConfigFile

  /** What `decryptConfigFile` hands back: the original stream, a stream over new bytes, an exit, or an exception. */
  datatype ConfigStream = Original | Replaced(bytes: seq<Byte>) | ConfigExit(status: int) | ConfigThrown

  /**
   * `decryptConfigFile(path, in, pass)`, where `content` is what `in` holds
   * and `rootPath` is the agent's `getRootPath()`. Class files and a missing
   * root pass through. A config file the encryptor emptied (no bytes) is
   * replaced by its payload; one with content is served as it is.
   */
  function DecryptConfigFile(dec: JarDecryptor, rt: Runtime, d: Disk, rootPath: Option<string>,
                             path: string, content: seq<Byte>, pass: string): (r: ConfigStream)
    ensures EndsWith(path, CLASS_EXT) || rootPath.None? || rootPath.value == [] ==> r.Original?
    ensures r.Replaced? && |content| > 0 ==> r.bytes == content
    ensures r.Replaced? && |content| == 0 ==>
      rootPath.Some? && DoDecrypt(dec, rt, d, rootPath.value, path, pass) == Plain(r.bytes)
    ensures r.ConfigExit? ==> r.status == -1
    ensures !EndsWith(path, CLASS_EXT) && rootPath.Some? && rootPath.value != [] && |content| == 0 ==>
      var dd := DoDecrypt(dec, rt, d, rootPath.value, path, pass);
      (dd.Plain? ==> r == Replaced(dd.bytes))
      && (dd.NotProtected? ==> r == Original)
      && (dd.Exit? ==> r == ConfigExit(dd.status))
      && (dd.Thrown? ==> r == ConfigThrown)
    ensures !EndsWith(path, CLASS_EXT) && rootPath.Some? && rootPath.value != [] && |content| > 0 ==> r == Replaced(content)
  {
    if EndsWith(path, CLASS_EXT) then Original
    else if rootPath.None? || rootPath.value == [] then Original
    else if |content| > 0 then Replaced(content)
    else
      match DoDecrypt(dec, rt, d, rootPath.value, path, pass)
      case NotProtected => Original
      case Exit(status) => ConfigExit(status)
      case Thrown => ConfigThrown
      case Plain(bytes) => Replaced(bytes)
  }

  /** A readable config file is never altered: its reader sees exactly its bytes. */
  lemma ContentServedAsIs(dec: JarDecryptor, rt: Runtime, d: Disk, rootPath: Option<string>,
                          path: string, content: seq<Byte>, pass: string)
    requires |content| > 0
    ensures var r := DecryptConfigFile(dec, rt, d, rootPath, path, content, pass);
      r == Original || r == Replaced(content)
  {
  }
}
