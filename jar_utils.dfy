/**
 * `JarUtils`: the root-path resolution used by the agent, the style-file rule,
 * and the entry plans of `compressJar` and `uncompressJar` with the zip streams
 * and the file system abstracted away. `sep` is `File.separator`, one character.
 */
module JarUtils {
  import opened Wrappers
  import opened Strings
  import opened Bytes
  import opened Constants

  const CLASSES: string := "/classes/"
  const STYLE_FILES: seq<string> := [".DS_Store", "Thumbs.db"]

  // ---------------------------------------------------------------- getRootPath

  function StripScheme(path: string, scheme: string): (r: string)
    ensures StartsWith(path, scheme) ==> path == scheme + r
    ensures !StartsWith(path, scheme) ==> r == path
    ensures |r| <= |path| && r == path[|path| - |r|..]
  {
    if StartsWith(path, scheme) then path[|scheme|..] else path
  }

  /** The four scheme prefixes, each removed at most once, in the order jar, war, file, nested. */
  function StripSchemes(path: string): string {
    StripScheme(StripScheme(StripScheme(StripScheme(path, JAR_SCHEME), WAR_SCHEME), FILE_SCHEME), NESTED_SCHEME)
  }

  /** Stripping only removes a prefix: what is left is a suffix of the path. */
  lemma StripSchemesSuffix(path: string)
    ensures EndsWith(path, StripSchemes(path))
  {
    var a := StripScheme(path, JAR_SCHEME);
    var b := StripScheme(a, WAR_SCHEME);
    var c := StripScheme(b, FILE_SCHEME);
    SuffixOfSuffix(path, a, b);
    SuffixOfSuffix(path, b, c);
    SuffixOfSuffix(path, c, StripScheme(c, NESTED_SCHEME));
  }

  /** A suffix of a suffix is a suffix. */
  lemma SuffixOfSuffix(s: string, t: string, u: string)
    requires |t| <= |s| && t == s[|s| - |t|..]
    requires |u| <= |t| && u == t[|t| - |u|..]
    ensures |u| <= |s| && u == s[|s| - |u|..]
  {
  }

  /** A Spring Boot nested-jar URL loses both its schemes, and nothing more. */
  lemma NestedUrlStripped(p: string)
    ensures StripSchemes(JAR_SCHEME + NESTED_SCHEME + p) == p
  {
    var s := JAR_SCHEME + NESTED_SCHEME + p;
    assert s[..|JAR_SCHEME|] == JAR_SCHEME;
    var t := s[|JAR_SCHEME|..];
    assert t == NESTED_SCHEME + p;
    assert t[0] == 'n';
    assert t[..|NESTED_SCHEME|] == NESTED_SCHEME;
  }

  /** The schemes are tested in a fixed order, so `jar:` after `file:` is kept. */
  lemma SchemeOrderMatters(p: string)
    ensures StripSchemes(FILE_SCHEME + JAR_SCHEME + p) == JAR_SCHEME + p
  {
    var s := FILE_SCHEME + JAR_SCHEME + p;
    assert s[0] == 'f';
    assert s[..|FILE_SCHEME|] == FILE_SCHEME;
    var t := s[|FILE_SCHEME|..];
    assert t == JAR_SCHEME + p;
    assert t[0] == 'j';
  }

  /**
   * The root of a path whose schemes are already stripped: the part before
   * the first `*`, else before the first `WEB-INF`, else before the first
   * `!`, else the whole path of a `.jar` or `.war`, else the part up to and
   * including the first `/classes/`, else `null`.
   */
  function RootOf(p: string): (r: Option<string>)
    ensures r.Some? ==> StartsWith(p, r.value)
  {
    if Contains(p, "*") then Some(p[..IndexOf(p, "*")])
    else if Contains(p, WEB_INF) then Some(p[..IndexOf(p, WEB_INF)])
    else if Contains(p, "!") then Some(p[..IndexOf(p, "!")])
    else if EndsWith(p, JAR_EXT) || EndsWith(p, WAR_EXT) then Some(p)
    else if Contains(p, CLASSES) then Some(p[..IndexOf(p, CLASSES) + |CLASSES|])
    else None
  }

  /** The root is `null` exactly when none of the five rules applies. */
  lemma RootOfNone(p: string)
    ensures RootOf(p).None? <==>
      !Contains(p, "*") && !Contains(p, WEB_INF) && !Contains(p, "!")
      && !EndsWith(p, JAR_EXT) && !EndsWith(p, WAR_EXT) && !Contains(p, CLASSES)
  {
  }

  /** The first rule that applies decides the root: it ends where the first `*`, `WEB-INF` or `!` starts. */
  lemma RootOfCut(p: string)
    ensures Contains(p, "*") ==> RootOf(p).Some? && FirstAt(p, "*", |RootOf(p).value|)
    ensures !Contains(p, "*") && Contains(p, WEB_INF) ==> RootOf(p).Some? && FirstAt(p, WEB_INF, |RootOf(p).value|)
    ensures !Contains(p, "*") && !Contains(p, WEB_INF) && Contains(p, "!") ==>
      RootOf(p).Some? && FirstAt(p, "!", |RootOf(p).value|)
  {
  }

  /** Without `*`, `WEB-INF` or `!`, an archive path is its own root, and otherwise the root ends with the first `/classes/`. */
  lemma RootOfArchiveOrClasses(p: string)
    requires !Contains(p, "*") && !Contains(p, WEB_INF) && !Contains(p, "!")
    ensures EndsWith(p, JAR_EXT) || EndsWith(p, WAR_EXT) ==> RootOf(p) == Some(p)
    ensures !EndsWith(p, JAR_EXT) && !EndsWith(p, WAR_EXT) && Contains(p, CLASSES) ==>
      RootOf(p).Some? && |RootOf(p).value| >= |CLASSES| && FirstAt(p, CLASSES, |RootOf(p).value| - |CLASSES|)
  {
  }

  /** `getRootPath(path)` for an already decoded path: the root of the path once its schemes are stripped. */
  function RootPath(path: string): Option<string> {
    RootOf(StripSchemes(path))
  }

  /** `t` occurs at `k` and nowhere before. */
  predicate FirstAt(s: string, t: string, k: int) {
    OccursAt(s, t, k) && forall j :: 0 <= j < k ==> !OccursAt(s, t, j)
  }

  /** A plain archive path resolves to itself. */
  lemma ArchiveIsItsOwnRoot(p: string)
    requires StripSchemes(p) == p
    requires !Contains(p, "*") && !Contains(p, WEB_INF) && !Contains(p, "!")
    requires EndsWith(p, JAR_EXT)
    ensures RootPath(p) == Some(p)
  {
  }

  // ---------------------------------------------------------------- isStyleFile

  /** The absolute path ends with one of the style-file names. */
  predicate StyleFile(absolutePath: string) {
    exists i :: 0 <= i < |STYLE_FILES| && EndsWith(absolutePath, STYLE_FILES[i])
  }

  lemma StyleFileNames(absolutePath: string)
    ensures StyleFile(absolutePath) <==> EndsWith(absolutePath, ".DS_Store") || EndsWith(absolutePath, "Thumbs.db")
  {
    if EndsWith(absolutePath, ".DS_Store") {
      assert EndsWith(absolutePath, STYLE_FILES[0]);
    }
    if EndsWith(absolutePath, "Thumbs.db") {
      assert EndsWith(absolutePath, STYLE_FILES[1]);
    }
  }

  /** `isStyleFile`: scans the style-file names and stops at the first that ends the path. */
  method IsStyleFile(absolutePath: string) returns (r: bool)
    ensures r <==> StyleFile(absolutePath)
  {
    for i := 0 to |STYLE_FILES|
      invariant forall j :: 0 <= j < i ==> !EndsWith(absolutePath, STYLE_FILES[j])
    {
      if EndsWith(absolutePath, STYLE_FILES[i]) {
        return true;
      }
    }
    return false;
  }

  // ---------------------------------------------------------------- compressJar

  /** A file found under the directory being packed. */
  datatype FileNode = FileNode(path: string, isDirectory: bool, content: seq<Byte>)

  datatype Compression = Stored | Deflated

  /** A planned zip entry; `size` and `crc` are set only on stored entries. */
  datatype ZipEntry = ZipEntry(name: string, compression: Compression, size: Option<nat>, crc: Option<nat>, data: seq<Byte>)

  /** Every file lies strictly below the directory `root`. */
  predicate Below(root: string, files: seq<FileNode>) {
    forall i :: 0 <= i < |files| ==> |files[i].path| > |root|
  }

  /** The entry name of a file: its path relative to `root` with separators turned into `/`. */
  function EntryName(root: string, sep: char, path: string): (name: string)
    requires |path| > |root|
    ensures |name| == |path| - |root| - 1
    ensures forall k :: 0 <= k < |name| ==> name[k] == (if path[|root| + 1 + k] == sep then '/' else path[|root| + 1 + k])
  {
    var relative := path[|root| + 1..];
    ReplaceOneChar(relative, sep, '/');
    Replace(relative, [sep], "/")
  }

  /** The entry written for one file that is not a style file. */
  function EntryFor(root: string, sep: char, f: FileNode, crc: seq<Byte> -> nat): (e: ZipEntry)
    requires |f.path| > |root|
    ensures f.isDirectory ==> e == ZipEntry(EntryName(root, sep, f.path) + "/", Deflated, None, None, [])
    ensures !f.isDirectory ==> e.name == EntryName(root, sep, f.path) && e.data == f.content
    ensures !f.isDirectory && EndsWith(e.name, JAR_EXT) ==>
      e.compression == Stored && e.size == Some(|f.content|) && e.crc == Some(crc(f.content))
    ensures !f.isDirectory && !EndsWith(e.name, JAR_EXT) ==> e.compression == Deflated && e.size.None? && e.crc.None?
  {
    var name := EntryName(root, sep, f.path);
    if f.isDirectory then ZipEntry(name + "/", Deflated, None, None, [])
    else if EndsWith(name, JAR_EXT) then ZipEntry(name, Stored, Some(|f.content|), Some(crc(f.content)), f.content)
    else ZipEntry(name, Deflated, None, None, f.content)
  }

  /** The files that are packed, in order: every one that is not a style file. */
  function Packed(files: seq<FileNode>): (r: seq<FileNode>)
    ensures |r| <= |files|
    ensures forall i :: 0 <= i < |r| ==> r[i] in files && !StyleFile(r[i].path)
    ensures forall f :: f in files && !StyleFile(f.path) ==> f in r
  {
    if files == [] then []
    else
      var last := files[|files| - 1];
      var init := files[..|files| - 1];
      assert files == init + [last];
      Packed(init) + (if StyleFile(last.path) then [] else [last])
  }

  /** The entries `compressJar` writes, one per packed file, in the order the files were listed. */
  function Plan(root: string, sep: char, files: seq<FileNode>, crc: seq<Byte> -> nat): (entries: seq<ZipEntry>)
    requires Below(root, files)
  {
    var packed := Packed(files);
    seq(|packed|, i requires 0 <= i < |packed| => EntryFor(root, sep, packed[i], crc))
  }

  lemma PackedSnoc(files: seq<FileNode>, f: FileNode)
    ensures Packed(files + [f]) == Packed(files) + (if StyleFile(f.path) then [] else [f])
  {
    assert (files + [f])[..|files|] == files;
  }

  /** Listing one more file plans one more entry for it, unless it is a style file. */
  lemma PlanSnoc(root: string, sep: char, files: seq<FileNode>, f: FileNode, crc: seq<Byte> -> nat)
    requires Below(root, files + [f])
    ensures Below(root, files) && |f.path| > |root|
    ensures Plan(root, sep, files + [f], crc) ==
      Plan(root, sep, files, crc) + (if StyleFile(f.path) then [] else [EntryFor(root, sep, f, crc)])
  {
    assert forall i :: 0 <= i < |files| ==> (files + [f])[i] == files[i];
    assert (files + [f])[|files|] == f;
    PackedSnoc(files, f);
  }

  /** Packed entry names use `/` only, whatever the platform separator. */
  lemma PlanNamesUseSlash(root: string, sep: char, files: seq<FileNode>, crc: seq<Byte> -> nat)
    requires Below(root, files)
    ensures forall i, k :: 0 <= i < |Plan(root, sep, files, crc)| && 0 <= k < |Plan(root, sep, files, crc)[i].name| ==>
      Plan(root, sep, files, crc)[i].name[k] != sep || sep == '/'
  {
    var packed := Packed(files);
    forall i, k | 0 <= i < |packed| && 0 <= k < |Plan(root, sep, files, crc)[i].name|
      ensures Plan(root, sep, files, crc)[i].name[k] != sep || sep == '/'
    {
      var f := packed[i];
      assert |f.path| > |root| by {
        var j :| 0 <= j < |files| && files[j] == f;
      }
    }
  }

  /**
   * `compressJar`: walks the listed files, skips style files and writes one
   * entry per remaining file. The time stamps and the byte streams are left out.
   */
  method CompressJar(root: string, sep: char, allFiles: seq<FileNode>, crc: seq<Byte> -> nat) returns (entries: seq<ZipEntry>)
    requires Below(root, allFiles)
    ensures entries == Plan(root, sep, allFiles, crc)
  {
    entries := [];
    for i := 0 to |allFiles|
      invariant Below(root, allFiles[..i])
      invariant entries == Plan(root, sep, allFiles[..i], crc)
    {
      var file := allFiles[i];
      assert allFiles[..i + 1] == allFiles[..i] + [file];
      PlanSnoc(root, sep, allFiles[..i], file, crc);
      var style := IsStyleFile(file.path);
      if style {
        continue;
      }
      var entryName := Replace(file.path[|root| + 1..], [sep], "/");
      var ze: ZipEntry;
      if file.isDirectory {
        ze := ZipEntry(entryName + "/", Deflated, None, None, []);
      } else if EndsWith(entryName, JAR_EXT) {
        ze := ZipEntry(entryName, Stored, Some(|file.content|), Some(crc(file.content)), file.content);
      } else {
        ze := ZipEntry(entryName, Deflated, None, None, file.content);
      }
      assert ze == EntryFor(root, sep, file, crc);
      entries := entries + [ze];
    }
    assert allFiles[..|allFiles|] == allFiles;
  }

  // ---------------------------------------------------------------- uncompressJar

  /** An entry of the archive being unpacked. */
  datatype ArchiveEntry = ArchiveEntry(name: string, isDirectory: bool)

  /** `new File(outDir, name).getAbsolutePath()` for an absolute `outDir`. */
  function OutPath(outDir: string, sep: char, name: string): string {
    outDir + [sep] + name
  }

  /** `File.getName()`: the part after the last separator. */
  function SimpleName(path: string, sep: char): string {
    var k := LastIndexOfChar(path, sep);
    if k < 0 then path else path[k + 1..]
  }

  /** The simple name is a suffix of the path without a separator. */
  lemma SimpleNameIsLastSegment(path: string, sep: char)
    ensures sep !in SimpleName(path, sep)
    ensures EndsWith(path, SimpleName(path, sep))
  {
    var k := LastIndexOfChar(path, sep);
    if k >= 0 {
      var r := path[k + 1..];
      assert |path| - |r| == k + 1;
      forall j | 0 <= j < |r| ensures r[j] != sep {
        assert r[j] == path[k + 1 + j];
      }
    }
  }

  /** The filter rejects the simple name of the entry's output file. */
  predicate Excluded(outDir: string, sep: char, e: ArchiveEntry, excludeFilter: Option<string -> bool>) {
    excludeFilter.Some? && excludeFilter.value(SimpleName(OutPath(outDir, sep, e.name), sep))
  }

  /** One entry is extracted when it is a file and the filter does not reject it. */
  predicate Extracts(outDir: string, sep: char, e: ArchiveEntry, excludeFilter: Option<string -> bool>) {
    !e.isDirectory && !Excluded(outDir, sep, e, excludeFilter)
  }

  /** The list `uncompressJar` returns: the output path of every extracted entry, in entry order. */
  function Extracted(outDir: string, sep: char, entries: seq<ArchiveEntry>, excludeFilter: Option<string -> bool>): (r: seq<string>)
    ensures |r| <= |entries|
  {
    if entries == [] then []
    else
      var e := entries[|entries| - 1];
      Extracted(outDir, sep, entries[..|entries| - 1], excludeFilter)
      + (if Extracts(outDir, sep, e, excludeFilter) then [OutPath(outDir, sep, e.name)] else [])
  }

  /** A path is returned exactly when it is the output path of an extracted entry. */
  lemma {:induction false} ExtractedMembers(outDir: string, sep: char, entries: seq<ArchiveEntry>, excludeFilter: Option<string -> bool>, p: string)
    ensures p in Extracted(outDir, sep, entries, excludeFilter) <==>
      exists i :: 0 <= i < |entries| && Extracts(outDir, sep, entries[i], excludeFilter) && p == OutPath(outDir, sep, entries[i].name)
  {
    if entries != [] {
      var n := |entries| - 1;
      var init := entries[..n];
      ExtractedMembers(outDir, sep, init, excludeFilter, p);
      if p in Extracted(outDir, sep, entries, excludeFilter) && p !in Extracted(outDir, sep, init, excludeFilter) {
        assert Extracts(outDir, sep, entries[n], excludeFilter) && p == OutPath(outDir, sep, entries[n].name);
      }
      if exists i :: 0 <= i < |entries| && Extracts(outDir, sep, entries[i], excludeFilter) && p == OutPath(outDir, sep, entries[i].name) {
        var i :| 0 <= i < |entries| && Extracts(outDir, sep, entries[i], excludeFilter) && p == OutPath(outDir, sep, entries[i].name);
        if i < n {
          assert init[i] == entries[i];
        }
      }
    }
  }

  /** Without a filter and without directories, every entry is extracted. */
  lemma {:induction false} ExtractedAllFiles(outDir: string, sep: char, entries: seq<ArchiveEntry>)
    requires forall i :: 0 <= i < |entries| ==> !entries[i].isDirectory
    ensures |Extracted(outDir, sep, entries, None)| == |entries|
  {
    if entries != [] {
      ExtractedAllFiles(outDir, sep, entries[..|entries| - 1]);
    }
  }

  /**
   * `uncompressJar`: the directory-creating pass and the copying are left out;
   * this is the second pass, which builds the result list.
   */
  method UncompressJar(outDir: string, sep: char, entries: seq<ArchiveEntry>, excludeFilter: Option<string -> bool>)
    returns (result: seq<string>)
    ensures result == Extracted(outDir, sep, entries, excludeFilter)
  {
    result := [];
    for i := 0 to |entries|
      invariant result == Extracted(outDir, sep, entries[..i], excludeFilter)
    {
      var entry := entries[i];
      assert entries[..i + 1][..i] == entries[..i];
      if entry.isDirectory {
        continue;
      }
      var file := OutPath(outDir, sep, entry.name);
      if excludeFilter.Some? && excludeFilter.value(SimpleName(file, sep)) {
        continue;
      }
      result := result + [file];
    }
    assert entries[..|entries|] == entries;
  }
}
