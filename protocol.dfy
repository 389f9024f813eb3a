/**
 * The two halves of ClassFinal together: what `encryptClass` leaves in the
 * working directory, packed or not, is what `doDecrypt`, `premain` and
 * `transform` read back. A `Run` fixes one encryption; the lemmas state that
 * the runtime recovers every protected file, that the startup check admits
 * the password the run hashed, and what happens on a foreign machine.
 */
module Protocol {
  import opened Wrappers
  import opened Bytes
  import opened Strings
  import opened Constants
  import StrUtils
  import EU = EncryptUtils
  import JarUtils
  import JE = JarEncryptor
  import JD = JarDecryptor
  import AT = AgentTransformer
  import CmdLine
  import CoreAgent

  /**
   * One call of `encryptClass`: the cryptography, `File.separator`, the
   * working directory, the password (`#` for no-password mode), the machine
   * code, the working directory's files, the class files to protect and the
   * random draws.
   */
  datatype Run = Run(
    crypto: EU.Crypto,
    sep: JD.Separator,
    tempWork: string,
    password: string,
    code: Option<string>,
    files: map<string, seq<Byte>>,
    classFiles: seq<string>,
    random: nat -> EU.Draw)

  /** `META-INF/.classes` of the run. */
  function MetaOf(run: Run): string {
    JE.MetaDir(run.tempWork, run.sep)
  }

  /** What the encryptor needs: readable, nameable class files whose payloads collide with nothing. */
  predicate WellFormed(run: Run) {
    JE.Encryptable(run.sep, run.files, run.classFiles)
    && JE.PathsApart(run.sep, MetaOf(run), run.classFiles, JE.PayloadNames(run.sep, run.classFiles, |run.classFiles|))
    && (forall k :: 0 <= k < |run.classFiles| ==> JE.NotConfigName(JE.PayloadName(run.sep, run.classFiles[k])))
    && (forall k :: 0 <= k < |run.classFiles| ==>
          run.classFiles[k] != JE.Child(MetaOf(run), run.sep, CONFIG_PASS)
          && run.classFiles[k] != JE.Child(MetaOf(run), run.sep, CONFIG_CODE))
  }

  /** The password the payloads are keyed with. */
  function Key(run: Run): string {
    JE.ActivePassword(run.crypto.md5, run.password, run.random)
  }

  /** The working directory after the run. */
  function Tree(run: Run): map<string, seq<Byte>>
    requires JE.Encryptable(run.sep, run.files, run.classFiles)
  {
    JE.EncryptedFiles(run.crypto, run.sep, run.tempWork, run.password, run.code, run.files, run.classFiles, run.random)
  }

  /** The payload name of the `i`-th class file. */
  function NameOf(run: Run, i: nat): string
    requires JE.Encryptable(run.sep, run.files, run.classFiles) && i < |run.classFiles|
  {
    JE.PayloadName(run.sep, run.classFiles[i])
  }

  /** A name that is one non-empty path segment on both sides: no `/` and no separator. */
  predicate Segment(sep: char, name: string) {
    name != [] && '/' !in name && sep !in name
  }

  /** The runtime shares the run's cryptography and separator, and decodes ASCII as UTF-8 does. */
  ghost predicate Agrees(run: Run, rt: JD.Runtime) {
    rt.crypto == run.crypto && rt.sep == run.sep && JD.DecodesAscii(rt.utf8)
  }

  /** What a read finds in a tree of files. */
  function Stored(tree: map<string, seq<Byte>>, path: string): JD.Fetch<seq<Byte>> {
    if path in tree then JD.Present(tree[path]) else JD.Absent
  }

  /**
   * From the root `root`, the runtime reads under `META-INF/.classes/<name>`
   * exactly what `tree` holds at `<metaDir>/<name>`. From a `packed` jar this
   * holds only for names `compressJar` does not skip as style files.
   */
  ghost predicate Serves(rt: JD.Runtime, d: JD.Disk, root: string, tree: map<string, seq<Byte>>, metaDir: string, packed: bool) {
    forall name {:trigger JD.ReadEncryptedFile(rt, d, root, name)} ::
      Segment(rt.sep, name) && (packed ==> !JarUtils.StyleFile(name)) ==>
      JD.ReadEncryptedFile(rt, d, root, name) == Stored(tree, JE.Child(metaDir, rt.sep, name))
  }

  // ---------------------------------------------------------------- where payloads are found

  /** `java.io.File` form of `META-INF/.classes/<name>`. */
  lemma EncryptPathInFileForm(sep: JD.Separator, name: string)
    requires sep == '/' || '/' !in name
    ensures JD.FilePath(sep, JD.ENCRYPT_PATH + name) == META_INF + [sep] + FILE_NAME + [sep] + name
  {
    var s := JD.ENCRYPT_PATH + name;
    var t := META_INF + [sep] + FILE_NAME + [sep] + name;
    assert |s| == |t|;
    forall k | 0 <= k < |s| ensures JD.FilePath(sep, s)[k] == t[k] {
      if k >= 18 {
        assert s[k] == name[k - 18] && t[k] == name[k - 18];
      }
    }
  }

  /**
   * Reading from a directory: `new File(workDir, "META-INF/.classes/" + name)`
   * is the path the encryptor wrote the payload to.
   */
  lemma RuntimePathOfPayload(sep: JD.Separator, tempWork: string, name: string)
    requires tempWork != [] && tempWork[|tempWork| - 1] != sep
    requires Segment(sep, name) && (sep == '/' || '/' !in tempWork)
    ensures JD.FileOf(sep, tempWork, JD.ENCRYPT_PATH + name) == JE.Child(JE.MetaDir(tempWork, sep), sep, name)
  {
    CoreAgent.FilePathPlain(sep, tempWork);
    EncryptPathInFileForm(sep, name);
    var child := JD.ENCRYPT_PATH + name;
    var c := JD.FilePath(sep, child);
    assert c[|child| - 1] == name[|name| - 1];
    JD.FileOfJoin(sep, tempWork, child);
  }

  /**
   * Reading from a jar: the entry `compressJar` writes for a payload file is
   * named `META-INF/.classes/<name>`, the entry `readEncryptedFile` asks for.
   */
  lemma PayloadEntryName(sep: JD.Separator, tempWork: string, name: string)
    requires sep !in name
    ensures JarUtils.EntryName(tempWork, sep, JE.Child(JE.MetaDir(tempWork, sep), sep, name)) == JD.ENCRYPT_PATH + name
  {
    var path := JE.Child(JE.MetaDir(tempWork, sep), sep, name);
    var e := JarUtils.EntryName(tempWork, sep, path);
    var t := JD.ENCRYPT_PATH + name;
    assert |e| == |t|;
    forall k | 0 <= k < |e| ensures e[k] == t[k] {
      if k >= 18 {
        assert path[|tempWork| + 1 + k] == name[k - 18];
      }
    }
  }

  /** Two files below one root with no `/` of their own get different entry names. */
  lemma EntryNameInjective(sep: JD.Separator, root: string, p: string, q: string)
    requires |p| > |root| && |q| > |root| && p[..|root| + 1] == q[..|root| + 1]
    requires sep == '/' || ('/' !in p && '/' !in q)
    requires JarUtils.EntryName(root, sep, p) == JarUtils.EntryName(root, sep, q)
    ensures p == q
  {
    var e := JarUtils.EntryName(root, sep, p);
    assert |p| == |q|;
    forall k | 0 <= k < |p| ensures p[k] == q[k] {
      if k <= |root| {
        assert p[k] == p[..|root| + 1][k];
      } else {
        assert e[k - |root| - 1] == JarUtils.EntryName(root, sep, q)[k - |root| - 1];
      }
    }
  }

  /**
   * `clearClassMethod` runs after `encryptClass` and rewrites class files only; when no class
   * file lies in `META-INF/.classes`, a runtime served by a tree (such as `Tree(run)`, the
   * one `encryptClass` leaves) is served just as well once the method bodies are cleared.
   */
  lemma StrippedServes(rt: JD.Runtime, d: JD.Disk, root: string, tree: map<string, seq<Byte>>, metaDir: string,
                        classFiles: seq<string>, strip: string -> Option<seq<Byte>>, packed: bool)
    requires JE.AllResolvable(rt.sep, classFiles)
    requires forall k, name :: 0 <= k < |classFiles| ==> classFiles[k] != JE.Child(metaDir, rt.sep, name)
    requires Serves(rt, d, root, tree, metaDir, packed)
    ensures Serves(rt, d, root, JE.Stripped(rt.sep, tree, classFiles, strip, |classFiles|), metaDir, packed)
  {
    var stripped := JE.Stripped(rt.sep, tree, classFiles, strip, |classFiles|);
    forall name | Segment(rt.sep, name) && (packed ==> !JarUtils.StyleFile(name))
      ensures JD.ReadEncryptedFile(rt, d, root, name) == Stored(stripped, JE.Child(metaDir, rt.sep, name))
    {
      var c := JE.Child(metaDir, rt.sep, name);
      JE.StrippedAt(rt.sep, tree, classFiles, strip, |classFiles|, c);
      assert classFiles[..|classFiles|] == classFiles;
    }
  }

  /** Running from the unpacked working directory: every payload is read from its file. */
  lemma DirectoryServes(rt: JD.Runtime, d: JD.Disk, tempWork: string)
    requires tempWork != [] && tempWork[|tempWork| - 1] != rt.sep
    requires rt.sep == '/' || '/' !in tempWork
    requires tempWork !in d.files
    requires forall name :: JE.Child(JE.MetaDir(tempWork, rt.sep), rt.sep, name) !in d.dirs
    ensures Serves(rt, d, tempWork, d.files, JE.MetaDir(tempWork, rt.sep), false)
  {
    forall name | Segment(rt.sep, name)
      ensures JD.ReadEncryptedFile(rt, d, tempWork, name) == Stored(d.files, JE.Child(JE.MetaDir(tempWork, rt.sep), rt.sep, name))
    {
      CoreAgent.FilePathPlain(rt.sep, tempWork);
      RuntimePathOfPayload(rt.sep, tempWork, name);
    }
  }

  /**
   * The listing `compressJar` walks, for the tree of files below `root`:
   * every node lies below `root` on a path that, as `java.io.File` keeps it,
   * does not end in the separator; every plain file is a file of the tree
   * with its bytes, and every file of the tree is listed.
   */
  ghost predicate Lists(root: string, sep: JD.Separator, listing: seq<JarUtils.FileNode>, tree: map<string, seq<Byte>>) {
    && JarUtils.Below(root, listing)
    && (forall f :: f in listing ==>
          |f.path| > |root| && f.path[..|root| + 1] == root + [sep] && (sep == '/' || '/' !in f.path)
          && f.path[|f.path| - 1] != sep)
    && (forall f :: f in listing && !f.isDirectory ==> f.path in tree && f.content == tree[f.path])
    && (forall p :: p in tree ==> JarUtils.FileNode(p, false, tree[p]) in listing)
  }

  /** The bytes of the first entry named exactly `n`. */
  function EntryData(entries: seq<JarUtils.ZipEntry>, n: string): (r: Option<seq<Byte>>)
    ensures r.None? <==> forall i :: 0 <= i < |entries| ==> entries[i].name != n
    ensures r.Some? ==> exists i :: 0 <= i < |entries| && entries[i].name == n && entries[i].data == r.value
  {
    if entries == [] then None
    else if entries[0].name == n then Some(entries[0].data)
    else
      var r := EntryData(entries[1..], n);
      assert forall i :: 1 <= i < |entries| ==> entries[i] == entries[1..][i - 1];
      r
  }

  /**
   * `ZipFile.getEntry(n)`: the entry named `n`; failing that, for a name that
   * does not end in `/`, the directory entry `n/`.
   */
  function GetEntry(entries: seq<JarUtils.ZipEntry>, n: string): (r: Option<seq<Byte>>)
    ensures r.None? <==>
      (forall i :: 0 <= i < |entries| ==> entries[i].name != n)
      && (EndsWith(n, "/") || forall i :: 0 <= i < |entries| ==> entries[i].name != n + "/")
    ensures r.Some? ==>
      exists i :: 0 <= i < |entries| && entries[i].data == r.value
        && (entries[i].name == n || (!EndsWith(n, "/") && entries[i].name == n + "/"))
    ensures (exists i :: 0 <= i < |entries| && entries[i].name == n) ==> r == EntryData(entries, n)
  {
    var exact := EntryData(entries, n);
    if exact.Some? || EndsWith(n, "/") then exact else EntryData(entries, n + "/")
  }

  /** The zip reader answers for `jar` as `getEntry` does over `entries`. */
  ghost predicate Holds(rt: JD.Runtime, jar: seq<Byte>, entries: seq<JarUtils.ZipEntry>) {
    forall n {:trigger rt.extract(jar, n)} ::
      rt.extract(jar, n) == if GetEntry(entries, n).Some? then JD.Present(GetEntry(entries, n).value) else JD.Absent
  }

  /** A path below `<metaDir>/` ends in a style-file name only when its last segment does. */
  lemma StyleChild(meta: string, sep: JD.Separator, name: string)
    requires JarUtils.StyleFile(JE.Child(meta, sep, name))
    ensures JarUtils.StyleFile(name)
  {
    var c := JE.Child(meta, sep, name);
    JarUtils.StyleFileNames(c);
    JarUtils.StyleFileNames(name);
    if EndsWith(c, ".DS_Store") {
      SuffixOfChild(meta, sep, name, ".DS_Store");
    } else {
      SuffixOfChild(meta, sep, name, "Thumbs.db");
    }
  }

  /** A suffix without the separator that ends `<meta>/<name>` ends `name`. */
  lemma SuffixOfChild(meta: string, sep: char, name: string, t: string)
    requires EndsWith(meta + [sep] + name, t) && sep !in t
    ensures EndsWith(name, t)
  {
    var c := meta + [sep] + name;
    if |t| <= |name| {
      assert c[|c| - |t|..] == name[|name| - |t|..];
    } else {
      SeparatorInLongSuffix(meta, sep, name, t);
    }
  }

  /** A suffix of `<meta>/<name>` longer than `name` contains the separator. */
  lemma SeparatorInLongSuffix(meta: string, sep: char, name: string, t: string)
    requires EndsWith(meta + [sep] + name, t) && |t| > |name|
    ensures sep in t
  {
    var c := meta + [sep] + name;
    var q := |t| - |name| - 1;
    assert c[|c| - |t|..][q] == c[|c| - |name| - 1] == sep;
    assert t[q] == sep;
  }

  /**
   * The entry `compressJar` plans under `META-INF/.classes/<name>` holds the
   * tree's file `<root>/META-INF/.classes/<name>`, and there is none when the
   * tree has no such file.
   */
  lemma PayloadInPlan(root: string, sep: JD.Separator, listing: seq<JarUtils.FileNode>, tree: map<string, seq<Byte>>,
                      crc: seq<Byte> -> nat, name: string)
    requires Lists(root, sep, listing, tree) && Segment(sep, name) && !JarUtils.StyleFile(name)
    requires sep == '/' || '/' !in root
    ensures var c := JE.Child(JE.MetaDir(root, sep), sep, name);
      EntryData(JarUtils.Plan(root, sep, listing, crc), JD.ENCRYPT_PATH + name) == if c in tree then Some(tree[c]) else None
  {
    var plan := JarUtils.Plan(root, sep, listing, crc);
    var n := JD.ENCRYPT_PATH + name;
    var c := JE.Child(JE.MetaDir(root, sep), sep, name);
    var e := EntryData(plan, n);
    if e.Some? {
      var i :| 0 <= i < |plan| && plan[i].name == n && plan[i].data == e.value;
      PlannedPayloadIsFile(root, sep, listing, tree, crc, name, i);
    } else if c in tree {
      FileIsPlanned(root, sep, listing, tree, crc, name);
    }
  }

  /** A planned entry named `META-INF/.classes/<name>` carries the tree's file `<root>/META-INF/.classes/<name>`. */
  lemma PlannedPayloadIsFile(root: string, sep: JD.Separator, listing: seq<JarUtils.FileNode>, tree: map<string, seq<Byte>>,
                             crc: seq<Byte> -> nat, name: string, i: nat)
    requires Lists(root, sep, listing, tree) && Segment(sep, name) && (sep == '/' || '/' !in root)
    requires i < |JarUtils.Plan(root, sep, listing, crc)| && JarUtils.Plan(root, sep, listing, crc)[i].name == JD.ENCRYPT_PATH + name
    ensures var c := JE.Child(JE.MetaDir(root, sep), sep, name);
      c in tree && JarUtils.Plan(root, sep, listing, crc)[i].data == tree[c]
  {
    var n := JD.ENCRYPT_PATH + name;
    var c := JE.Child(JE.MetaDir(root, sep), sep, name);
    var f := JarUtils.Packed(listing)[i];
    var e := JarUtils.EntryFor(root, sep, f, crc);
    assert f in listing;
    assert e.name == n;
    PayloadEntryName(sep, root, name);
    PayloadPathBelow(root, sep, name);
    assert n[|n| - 1] == name[|name| - 1] != '/';
    assert !f.isDirectory;
    EntryNameInjective(sep, root, f.path, c);
  }

  /** A tree file `<root>/META-INF/.classes/<name>` that is not a style file gets a planned entry. */
  lemma FileIsPlanned(root: string, sep: JD.Separator, listing: seq<JarUtils.FileNode>, tree: map<string, seq<Byte>>,
                      crc: seq<Byte> -> nat, name: string)
    requires Lists(root, sep, listing, tree) && Segment(sep, name) && !JarUtils.StyleFile(name)
    requires JE.Child(JE.MetaDir(root, sep), sep, name) in tree
    ensures exists k :: 0 <= k < |JarUtils.Plan(root, sep, listing, crc)| && JarUtils.Plan(root, sep, listing, crc)[k].name == JD.ENCRYPT_PATH + name
  {
    var c := JE.Child(JE.MetaDir(root, sep), sep, name);
    var f := JarUtils.FileNode(c, false, tree[c]);
    var kept := JarUtils.Packed(listing);
    assert f in listing;
    if JarUtils.StyleFile(c) {
      StyleChild(JE.MetaDir(root, sep), sep, name);
    }
    var k :| 0 <= k < |kept| && kept[k] == f;
    PayloadEntryName(sep, root, name);
    assert JarUtils.Plan(root, sep, listing, crc)[k].name == JD.ENCRYPT_PATH + name;
  }

  /**
   * When no listed directory lies at `<root>/META-INF/.classes/<name>`, no
   * planned entry is named `META-INF/.classes/<name>/`, so `getEntry` has no
   * directory entry to fall back on.
   */
  lemma NoDirectoryTwin(root: string, sep: JD.Separator, listing: seq<JarUtils.FileNode>, tree: map<string, seq<Byte>>,
                        crc: seq<Byte> -> nat, name: string)
    requires Lists(root, sep, listing, tree) && Segment(sep, name) && (sep == '/' || '/' !in root)
    requires forall f :: f in listing && f.isDirectory ==> f.path != JE.Child(JE.MetaDir(root, sep), sep, name)
    ensures EntryData(JarUtils.Plan(root, sep, listing, crc), JD.ENCRYPT_PATH + name + "/").None?
  {
    var plan := JarUtils.Plan(root, sep, listing, crc);
    var kept := JarUtils.Packed(listing);
    var n := JD.ENCRYPT_PATH + name;
    forall k | 0 <= k < |plan| ensures plan[k].name != n + "/" {
      var f := kept[k];
      assert f in listing;
      var en := JarUtils.EntryName(root, sep, f.path);
      if f.isDirectory {
        DirectoryNotPayload(root, sep, name, f.path);
        assert plan[k].name == en + "/";
        assert (en + "/")[..|en|] == en && (n + "/")[..|n|] == n;
      } else {
        FileEntryNameNoSlash(root, sep, f.path);
        assert plan[k].name == en;
        assert (n + "/")[|n|] == '/';
      }
    }
  }

  /** A path below `root` other than the payload path `<root>/META-INF/.classes/<name>` has another entry name. */
  lemma DirectoryNotPayload(root: string, sep: JD.Separator, name: string, path: string)
    requires Segment(sep, name) && (sep == '/' || '/' !in root)
    requires |path| > |root| && path[..|root| + 1] == root + [sep] && (sep == '/' || '/' !in path)
    requires path != JE.Child(JE.MetaDir(root, sep), sep, name)
    ensures JarUtils.EntryName(root, sep, path) != JD.ENCRYPT_PATH + name
  {
    var c := JE.Child(JE.MetaDir(root, sep), sep, name);
    PayloadEntryName(sep, root, name);
    PayloadPathBelow(root, sep, name);
    if JarUtils.EntryName(root, sep, path) == JD.ENCRYPT_PATH + name {
      EntryNameInjective(sep, root, path, c);
    }
  }

  /** A path below `root` that does not end in the separator has an entry name that does not end in `/`. */
  lemma FileEntryNameNoSlash(root: string, sep: JD.Separator, path: string)
    requires |path| > |root| && path[..|root| + 1] == root + [sep] && (sep == '/' || '/' !in path)
    requires path[|path| - 1] != sep
    ensures var en := JarUtils.EntryName(root, sep, path); en != [] && en[|en| - 1] != '/'
  {
    assert path[|root|] == (root + [sep])[|root|] == sep;
  }

  /** `<root>/META-INF/.classes/<name>` lies below `root` and has no `/` of its own when the separator is not `/`. */
  lemma PayloadPathBelow(root: string, sep: JD.Separator, name: string)
    requires Segment(sep, name) && (sep == '/' || '/' !in root)
    ensures var c := JE.Child(JE.MetaDir(root, sep), sep, name);
      |c| > |root| && c[..|root| + 1] == root + [sep] && (sep == '/' || '/' !in c)
  {
    var c := JE.Child(JE.MetaDir(root, sep), sep, name);
    assert c == root + [sep] + (META_INF + [sep] + FILE_NAME + [sep] + name);
    assert c[..|root| + 1] == root + [sep];
  }

  /**
   * Running from the jar `compressJar` packed from `root`, with no directory
   * where a payload would be: every payload that is not a style file is read
   * from its entry.
   */
  lemma JarServes(rt: JD.Runtime, d: JD.Disk, jarPath: string, root: string, listing: seq<JarUtils.FileNode>,
                  tree: map<string, seq<Byte>>, crc: seq<Byte> -> nat)
    requires JD.FilePath(rt.sep, jarPath) in d.files
    requires Lists(root, rt.sep, listing, tree) && (rt.sep == '/' || '/' !in root)
    requires forall f, name :: f in listing && f.isDirectory ==> f.path != JE.Child(JE.MetaDir(root, rt.sep), rt.sep, name)
    requires Holds(rt, d.files[JD.FilePath(rt.sep, jarPath)], JarUtils.Plan(root, rt.sep, listing, crc))
    ensures Serves(rt, d, jarPath, tree, JE.MetaDir(root, rt.sep), true)
  {
    var jar := d.files[JD.FilePath(rt.sep, jarPath)];
    forall name | Segment(rt.sep, name) && !JarUtils.StyleFile(name)
      ensures JD.ReadEncryptedFile(rt, d, jarPath, name) == Stored(tree, JE.Child(JE.MetaDir(root, rt.sep), rt.sep, name))
    {
      assert JD.ReadEncryptedFile(rt, d, jarPath, name) == rt.extract(jar, JD.ENCRYPT_PATH + name);
      PayloadInPlan(root, rt.sep, listing, tree, crc, name);
      NoDirectoryTwin(root, rt.sep, listing, tree, crc, name);
    }
  }

  // ---------------------------------------------------------------- what the markers give back

  /** The marker names are single path segments that are not style-file names. */
  lemma ConfigNamesAreSegments(sep: JD.Separator)
    ensures Segment(sep, CONFIG_PASS) && Segment(sep, CONFIG_CODE) && Segment(sep, CONFIG_PASSHASH)
    ensures !JarUtils.StyleFile(CONFIG_PASS) && !JarUtils.StyleFile(CONFIG_CODE) && !JarUtils.StyleFile(CONFIG_PASSHASH)
  {
    assert forall k :: 0 <= k < |CONFIG_PASS| ==> CONFIG_PASS[k] != '/' && CONFIG_PASS[k] != '\\';
    NotStyle(CONFIG_PASS);
    NotStyle(CONFIG_CODE);
    NotStyle(CONFIG_PASSHASH);
  }

  /** A name whose last two characters end neither style-file name is not a style file. */
  lemma NotStyle(name: string)
    requires |name| >= 2 && name[|name| - 2..] != "re" && name[|name| - 2..] != "db"
    ensures !JarUtils.StyleFile(name)
  {
    JarUtils.StyleFileNames(name);
  }

  /** Without a machine code no code marker is written, so none is found unless the input had one. */
  lemma CodeMarkerAbsent(run: Run)
    requires WellFormed(run) && StrUtils.IsEmpty(run.code)
    requires JE.Child(MetaOf(run), run.sep, CONFIG_CODE) !in run.files
    ensures JE.Child(MetaOf(run), run.sep, CONFIG_CODE) !in Tree(run)
  {
    var meta := MetaOf(run);
    var p := JE.Child(meta, run.sep, CONFIG_CODE);
    var names := JE.PayloadNames(run.sep, run.classFiles, |run.classFiles|);
    var marked := JE.WithMarkers(run.crypto, run.sep, meta, run.password, run.code, run.files, run.random);
    JE.ChildApart(meta, run.sep, CONFIG_CODE, CONFIG_PASS);
    JE.ChildApart(meta, run.sep, CONFIG_CODE, CONFIG_PASSHASH);
    assert p !in marked;
    assert JE.AllPresent(marked, run.classFiles);
    JE.ConfigApart(meta, run.sep, CONFIG_CODE, names);
    JE.StoreAllUntouched(run.crypto, Key(run), run.code, run.sep, meta, marked, run.classFiles, names, |run.classFiles|, p);
  }

  /** In no-password mode `readPassFromJar` recovers the generated password. */
  lemma HiddenPasswordRecovered(run: Run, rt: JD.Runtime, d: JD.Disk, root: string, packed: bool)
    requires WellFormed(run) && JE.NoPwd(run.password) && Agrees(run, rt)
    requires Serves(rt, d, root, Tree(run), MetaOf(run), packed)
    ensures JD.ReadPassFromJar(rt, d, root) == JD.Present(Key(run))
  {
    JE.EncryptedMarkers(run.crypto, run.sep, run.tempWork, run.password, run.code, run.files, run.classFiles, run.random);
    ConfigNamesAreSegments(rt.sep);
    var chars := EU.RandomCharsOf(32, run.random);
    assert JD.ReadEncryptedFile(rt, d, root, CONFIG_PASS) == JD.Present(AsciiBytes(chars));
    EU.RandomCharsAscii(32, run.random);
    assert rt.utf8(AsciiBytes(chars)) == chars;
  }

  /** The machine-code marker read back is md5 of the run's code. */
  lemma CodeMarkerRead(run: Run, rt: JD.Runtime, d: JD.Disk, root: string, packed: bool)
    requires WellFormed(run) && StrUtils.IsNotEmpty(run.code) && Agrees(run, rt)
    requires Serves(rt, d, root, Tree(run), MetaOf(run), packed)
    ensures JD.ReadEncryptedFile(rt, d, root, CONFIG_CODE).Present?
    ensures rt.utf8(JD.ReadEncryptedFile(rt, d, root, CONFIG_CODE).value) == EU.Md5Hex(run.crypto.md5, run.code.value, false)
  {
    JE.EncryptedMarkers(run.crypto, run.sep, run.tempWork, run.password, run.code, run.files, run.classFiles, run.random);
    ConfigNamesAreSegments(rt.sep);
    var hex := EU.Md5Hex(run.crypto.md5, run.code.value, false);
    assert JD.ReadEncryptedFile(rt, d, root, CONFIG_CODE) == JD.Present(AsciiBytes(hex));
    EU.Md5HexIsAscii(run.crypto.md5, run.code.value, false);
    assert rt.utf8(AsciiBytes(hex)) == hex;
  }

  // ---------------------------------------------------------------- the round trip

  /**
   * `doDecrypt ∘ encryptClass = id`: on the machine the run was bound to (any
   * machine when it was bound to none), with the run's password, or `#` when
   * the run generated it, `doDecrypt` returns the bytes `encryptClass` read.
   */
  lemma ClassRoundTrip(run: Run, rt: JD.Runtime, d: JD.Disk, root: string, i: nat, machine: string, password: string, packed: bool)
    requires WellFormed(run) && i < |run.classFiles| && Segment(run.sep, NameOf(run, i))
    requires packed ==> !JarUtils.StyleFile(NameOf(run, i))
    requires StrUtils.IsEmpty(run.code) ==> JE.Child(MetaOf(run), run.sep, CONFIG_CODE) !in run.files
    requires Agrees(run, rt) && Serves(rt, d, root, Tree(run), MetaOf(run), packed)
    requires StrUtils.IsNotEmpty(run.code) ==> machine == run.code.value
    requires password == Key(run) || (JE.NoPwd(run.password) && password == "#")
    ensures JD.DoDecrypt(JD.JarDecryptor(machine), rt, d, root, NameOf(run, i), password) == JD.Plain(run.files[run.classFiles[i]])
  {
    var name := NameOf(run, i);
    var original := run.files[run.classFiles[i]];
    JE.EncryptedPayload(run.crypto, run.sep, run.tempWork, run.password, run.code, run.files, run.classFiles, run.random, i);
    assert JD.ReadEncryptedFile(rt, d, root, name) == JD.Present(JE.Payload(rt.crypto, Key(run), run.code, name, original));
    if StrUtils.IsNotEmpty(run.code) {
      CodeMarkerRead(run, rt, d, root, packed);
    } else {
      CodeMarkerAbsent(run);
      ConfigNamesAreSegments(rt.sep);
      assert JD.ReadEncryptedFile(rt, d, root, CONFIG_CODE) == JD.Absent;
    }
    if password == "#" {
      HiddenPasswordRecovered(run, rt, d, root, packed);
    }
    PayloadPeels(JD.JarDecryptor(machine), rt, d, root, name, password, Key(run), run.code, original);
  }

  /**
   * `doDecrypt` undoes `Payload`: with the machine marker matching the code the
   * payload was bound to (or no marker for an unbound payload) and a password
   * that unlocks to the key, the original bytes come back.
   */
  lemma PayloadPeels(dec: JD.JarDecryptor, rt: JD.Runtime, d: JD.Disk, root: string, name: string, password: string,
                     key: string, code: Option<string>, original: seq<Byte>)
    requires JD.ReadEncryptedFile(rt, d, root, name) == JD.Present(JE.Payload(rt.crypto, key, code, name, original))
    requires JD.UnlockPassword(rt, d, root, password) == JD.Present(key)
    requires StrUtils.IsNotEmpty(code) ==>
      && dec.code == code.value
      && JD.ReadEncryptedFile(rt, d, root, CONFIG_CODE).Present?
      && rt.utf8(JD.ReadEncryptedFile(rt, d, root, CONFIG_CODE).value) == EU.Md5Hex(rt.crypto.md5, dec.code, false)
    requires StrUtils.IsEmpty(code) ==> JD.ReadEncryptedFile(rt, d, root, CONFIG_CODE) == JD.Absent
    ensures JD.DoDecrypt(dec, rt, d, root, name, password) == JD.Plain(original)
  {
    var md5 := rt.crypto.md5;
    var layer := EU.XorMd5(md5, original, key + name);
    if StrUtils.IsNotEmpty(code) {
      EU.XorMd5Involution(md5, layer, name + dec.code);
      assert JD.DoDecrypt(dec, rt, d, root, name, password) == JD.PasswordLayer(rt, d, root, name, password, layer);
    }
    EU.XorMd5Involution(md5, original, key + name);
  }


  /** Bound to another machine, every protected file ends the program with status -1. */
  lemma ForeignMachineExits(run: Run, rt: JD.Runtime, d: JD.Disk, root: string, i: nat, machine: string, password: string, packed: bool)
    requires WellFormed(run) && i < |run.classFiles| && Segment(run.sep, NameOf(run, i))
    requires packed ==> !JarUtils.StyleFile(NameOf(run, i))
    requires Agrees(run, rt) && Serves(rt, d, root, Tree(run), MetaOf(run), packed)
    requires StrUtils.IsNotEmpty(run.code) && run.crypto.md5(machine) != run.crypto.md5(run.code.value)
    ensures JD.DoDecrypt(JD.JarDecryptor(machine), rt, d, root, NameOf(run, i), password) == JD.Exit(-1)
  {
    JE.EncryptedPayload(run.crypto, run.sep, run.tempWork, run.password, run.code, run.files, run.classFiles, run.random, i);
    assert JD.ReadEncryptedFile(rt, d, root, NameOf(run, i)).Present?;
    CodeMarkerRead(run, rt, d, root, packed);
    EU.Md5HexInjective(run.crypto.md5, machine, run.code.value);
  }

  /** The transformer hands the JVM the original class for a protected class file. */
  lemma ProtectedClassLoads(run: Run, rt: JD.Runtime, d: JD.Disk, i: nat, machine: string, t: AT.AgentTransformer,
                            location: string, className: string, classBuffer: seq<Byte>, packed: bool)
    requires WellFormed(run) && i < |run.classFiles| && Segment(run.sep, NameOf(run, i))
    requires packed ==> !JarUtils.StyleFile(NameOf(run, i))
    requires StrUtils.IsEmpty(run.code) ==> JE.Child(MetaOf(run), run.sep, CONFIG_CODE) !in run.files
    requires JarUtils.RootPath(location).Some? && JarUtils.RootPath(location).value != []
    requires Agrees(run, rt) && Serves(rt, d, JarUtils.RootPath(location).value, Tree(run), MetaOf(run), packed)
    requires StrUtils.IsNotEmpty(run.code) ==> machine == run.code.value
    requires t.password == Key(run) || (JE.NoPwd(run.password) && t.password == "#")
    requires AT.LookupName(className) == NameOf(run, i)
    requires AT.IsClassFile(run.files[run.classFiles[i]])
    ensures AT.Transform(t, JD.JarDecryptor(machine), rt, d, true, Some(className), Some(AT.Domain(Some(location))), classBuffer)
      == AT.Bytes(run.files[run.classFiles[i]])
  {
    var root := JarUtils.RootPath(location).value;
    var original := run.files[run.classFiles[i]];
    ClassRoundTrip(run, rt, d, root, i, machine, t.password, packed);
    AT.DecryptedClassReplacesBuffer(t, JD.JarDecryptor(machine), rt, d, className, location, classBuffer, original);
  }

  // ---------------------------------------------------------------- the startup check

  /**
   * The stored hash admits a candidate exactly when its hash is the hash of
   * the run's password; in particular it admits that password.
   */
  lemma HashCheck(run: Run, rt: JD.Runtime, d: JD.Disk, root: string, candidate: string, packed: bool)
    requires WellFormed(run) && Agrees(run, rt) && Serves(rt, d, root, Tree(run), MetaOf(run), packed)
    ensures CoreAgent.HashAccepts(rt, d, root, candidate)
      <==> JE.PassHash(run.crypto.md5, candidate) == JE.PassHash(run.crypto.md5, Key(run))
    ensures CoreAgent.HashAccepts(rt, d, root, Key(run))
  {
    JE.EncryptedMarkers(run.crypto, run.sep, run.tempWork, run.password, run.code, run.files, run.classFiles, run.random);
    ConfigNamesAreSegments(rt.sep);
    var md5 := run.crypto.md5;
    var hash := JE.PassHash(md5, Key(run));
    assert JD.ReadEncryptedFile(rt, d, root, CONFIG_PASSHASH) == JD.Present(AsciiBytes(hash));
    EU.Md5HexIsAscii(md5, EU.SALT + EU.Md5Hex(md5, Key(run) + EU.SALT, false), false);
    assert rt.utf8(AsciiBytes(hash)) == hash;
  }

  /** A candidate whose salted digest differs from the password's is refused. */
  lemma WrongPasswordRefused(run: Run, rt: JD.Runtime, d: JD.Disk, root: string, candidate: string, packed: bool)
    requires WellFormed(run) && Agrees(run, rt) && Serves(rt, d, root, Tree(run), MetaOf(run), packed)
    requires var md5 := run.crypto.md5;
      md5(EU.SALT + EU.Md5Hex(md5, candidate + EU.SALT, false)) != md5(EU.SALT + EU.Md5Hex(md5, Key(run) + EU.SALT, false))
    ensures !CoreAgent.HashAccepts(rt, d, root, candidate)
  {
    var md5 := run.crypto.md5;
    HashCheck(run, rt, d, root, candidate, packed);
    EU.Md5HexInjective(md5, EU.SALT + EU.Md5Hex(md5, candidate + EU.SALT, false), EU.SALT + EU.Md5Hex(md5, Key(run) + EU.SALT, false));
  }

  /** The password `encryptClass` keyed with is never empty. */
  lemma KeyNotEmpty(run: Run)
    requires run.password != []
    ensures |Key(run)| > 0 && Key(run) != "#"
  {
  }

  /**
   * Whatever source yields the run's password, `premain` installs a
   * transformer holding it; the hash is read after the password-file step.
   */
  lemma RightPasswordStarts(run: Run, rt: JD.Runtime, host: CoreAgent.Host, d: JD.Disk, args: Option<string>, after: JD.Disk, packed: bool)
    requires WellFormed(run) && run.password != [] && Agrees(run, rt) && host.rootPath.Some?
    requires CoreAgent.ChosenPassword(rt, host, d, host.rootPath.value, CoreAgent.AgentOptionMap(args)) == CoreAgent.Chosen(Some(Key(run)), after)
    requires Serves(rt, after, host.rootPath.value, Tree(run), MetaOf(run), packed)
    ensures CoreAgent.PremainOf(rt, host, d, args)
      == (CoreAgent.Started(if host.inst then Some(AT.AgentTransformer(Key(run))) else None), after)
  {
    KeyNotEmpty(run);
    HashCheck(run, rt, after, host.rootPath.value, Key(run), packed);
  }

  /** A candidate the salted digest tells apart from the run's password ends `premain` with status 0. */
  lemma WrongPasswordExits(run: Run, rt: JD.Runtime, host: CoreAgent.Host, d: JD.Disk, args: Option<string>,
                           candidate: string, after: JD.Disk, packed: bool)
    requires WellFormed(run) && Agrees(run, rt) && host.rootPath.Some? && candidate != []
    requires CoreAgent.ChosenPassword(rt, host, d, host.rootPath.value, CoreAgent.AgentOptionMap(args)) == CoreAgent.Chosen(Some(candidate), after)
    requires Serves(rt, after, host.rootPath.value, Tree(run), MetaOf(run), packed)
    requires var md5 := run.crypto.md5;
      md5(EU.SALT + EU.Md5Hex(md5, candidate + EU.SALT, false)) != md5(EU.SALT + EU.Md5Hex(md5, Key(run) + EU.SALT, false))
    ensures CoreAgent.PremainOf(rt, host, d, args) == (CoreAgent.Exited(0), after)
  {
    WrongPasswordRefused(run, rt, after, host.rootPath.value, candidate, packed);
    HashCheck(run, rt, after, host.rootPath.value, candidate, packed);
  }

  /**
   * A jar protected in no-password mode starts without arguments: the
   * hidden password is found first and passes the hash check.
   */
  lemma NoPasswordModeStarts(run: Run, rt: JD.Runtime, host: CoreAgent.Host, d: JD.Disk, packed: bool)
    requires WellFormed(run) && JE.NoPwd(run.password) && Agrees(run, rt) && host.rootPath.Some?
    requires Serves(rt, d, host.rootPath.value, Tree(run), MetaOf(run), packed)
    ensures CoreAgent.PremainOf(rt, host, d, None)
      == (CoreAgent.Started(if host.inst then Some(AT.AgentTransformer(Key(run))) else None), d)
  {
    HiddenPasswordRecovered(run, rt, d, host.rootPath.value, packed);
    assert CoreAgent.ChosenPassword(rt, host, d, host.rootPath.value, map[]) == CoreAgent.Chosen(Some(Key(run)), d);
    RightPasswordStarts(run, rt, host, d, None, d, packed);
  }

  /**
   * The `nopwd` option on such a jar is refused: it replaces the hidden
   * password by `#`, whose hash is not the stored one unless md5 fails to
   * tell `#` from the generated password.
   */
  lemma NoPwdOptionExits(run: Run, rt: JD.Runtime, host: CoreAgent.Host, d: JD.Disk, args: Option<string>, packed: bool)
    requires WellFormed(run) && Agrees(run, rt) && host.rootPath.Some?
    requires CmdLine.HasKey(CoreAgent.AgentOptionMap(args), Some("nopwd"))
    requires Serves(rt, d, host.rootPath.value, Tree(run), MetaOf(run), packed)
    requires !JD.ReadPassFromJar(rt, d, host.rootPath.value).Failed?
    requires var md5 := run.crypto.md5;
      md5(EU.SALT + EU.Md5Hex(md5, "#" + EU.SALT, false)) != md5(EU.SALT + EU.Md5Hex(md5, Key(run) + EU.SALT, false))
    ensures CoreAgent.PremainOf(rt, host, d, args) == (CoreAgent.Exited(0), d)
  {
    CoreAgent.NoPwdFlagWins(rt, host, d, host.rootPath.value, CoreAgent.AgentOptionMap(args));
    WrongPasswordExits(run, rt, host, d, args, "#", d, packed);
  }
}
