/**
 * `AgentTransformer`: the class-file hook the agent installs. For every
 * class the JVM loads it looks for a payload of that class in the jar or
 * classes directory the class came from and, when the payload decrypts to a
 * class file, hands that to the JVM instead of the stub it was given.
 */
module AgentTransformer {
  import opened Wrappers
  import opened Bytes
  import opened Strings
  import JarUtils
  import JD = JarDecryptor

  /** The transformer holds the password it decrypts with. */
  datatype AgentTransformer = AgentTransformer(password: string)

  /** The constructor refuses a `null` password (`requireNonNull`). */
  function NewAgentTransformer(password: Option<string>): (r: Result<AgentTransformer>)
    ensures r.Ok? <==> password.Some?
    ensures r.Ok? ==> r.value.password == password.value
  {
    if password.None? then Err("password") else Ok(AgentTransformer(password.value))
  }

  /** The first four bytes of every class file: 0xCAFEBABE (-54, -2, -70, -66 as Java bytes). */
  const MAGIC: seq<Byte> := [0xCA, 0xFE, 0xBA, 0xBE]

  /** The payload name of a class: its internal name with `/` and `\` read as `.`. */
  function LookupName(className: string): (r: string)
    ensures |r| == |className|
    ensures '/' !in r && '\\' !in r
    ensures forall k :: 0 <= k < |className| ==>
      r[k] == if className[k] == '/' || className[k] == '\\' then '.' else className[k]
  {
    ReplaceChar(ReplaceChar(className, '/', '.'), '\\', '.')
  }

  /** `com/demo/Main` and `com.demo.Main` name the same payload. */
  lemma LookupNameIgnoresSpelling(a: string, b: string)
    requires |a| == |b|
    requires forall k :: 0 <= k < |a| ==> a[k] == b[k] || (a[k] in "./\\" && b[k] in "./\\")
    ensures LookupName(a) == LookupName(b)
  {
  }

  /** The protection domain of a class: where its code came from, when that is known. */
  datatype Domain = Domain(location: Option<string>)

  /** What `transform` ends in: the bytes it returns, a `System.exit`, or an exception it does not catch. */
  datatype Transformed = Bytes(bytes: seq<Byte>) | Exited(status: int) | Raised

  /** The decrypted bytes look like a class file. */
  predicate IsClassFile(b: seq<Byte>) {
    |b| >= 4 && b[..4] == MAGIC
  }

  /**
   * `transform(loader, className, _, domain, classBuffer)`, for a code
   * location that is already URL-decoded. Without a class name, domain or
   * loader, or outside a root ClassFinal knows, the class buffer is returned.
   * A payload that decrypts to a class file replaces the buffer; every other
   * outcome of `doDecrypt` but an exit, including an exception, falls back to
   * the buffer. A domain without a code location throws before the `try`.
   */
  function Transform(t: AgentTransformer, dec: JD.JarDecryptor, rt: JD.Runtime, d: JD.Disk, hasLoader: bool,
                     className: Option<string>, domain: Option<Domain>, classBuffer: seq<Byte>): (r: Transformed)
    ensures className.None? || domain.None? || !hasLoader ==> r == Bytes(classBuffer)
    ensures r.Bytes? ==> r.bytes == classBuffer || IsClassFile(r.bytes)
    ensures r.Exited? ==> r.status == -1
    ensures r.Raised? <==> className.Some? && domain.Some? && hasLoader && domain.value.location.None?
  {
    if className.None? || domain.None? || !hasLoader then Bytes(classBuffer)
    else if domain.value.location.None? then Raised
    else
      var root := JarUtils.RootPath(domain.value.location.value);
      if root.None? || root.value == [] then Bytes(classBuffer)
      else
        match JD.DoDecrypt(dec, rt, d, root.value, LookupName(className.value), t.password)
        case Plain(b) => if IsClassFile(b) then Bytes(b) else Bytes(classBuffer)
        case Exit(status) => Exited(status)
        case _ => Bytes(classBuffer)
  }

  /** A payload that decrypts to a class file is what the JVM gets instead of the buffer. */
  lemma DecryptedClassReplacesBuffer(t: AgentTransformer, dec: JD.JarDecryptor, rt: JD.Runtime, d: JD.Disk,
                                     className: string, location: string, classBuffer: seq<Byte>, plain: seq<Byte>)
    requires JarUtils.RootPath(location).Some? && JarUtils.RootPath(location).value != []
    requires JD.DoDecrypt(dec, rt, d, JarUtils.RootPath(location).value, LookupName(className), t.password) == JD.Plain(plain)
    requires IsClassFile(plain)
    ensures Transform(t, dec, rt, d, true, Some(className), Some(Domain(Some(location))), classBuffer) == Bytes(plain)
  {
  }

  /** A class with no payload under its root is loaded as it is. */
  lemma UnprotectedClassUntouched(t: AgentTransformer, dec: JD.JarDecryptor, rt: JD.Runtime, d: JD.Disk,
                                  className: string, location: string, classBuffer: seq<Byte>)
    requires JarUtils.RootPath(location).Some?
    requires JD.ReadEncryptedFile(rt, d, JarUtils.RootPath(location).value, LookupName(className)).Absent?
    ensures Transform(t, dec, rt, d, true, Some(className), Some(Domain(Some(location))), classBuffer) == Bytes(classBuffer)
  {
    var root := JarUtils.RootPath(location).value;
    assert JD.DoDecrypt(dec, rt, d, root, LookupName(className), t.password).NotProtected?;
  }
}
