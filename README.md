# ClassFinal, modelled in Dafny

ClassFinal protects the `.class` files of a Java jar or war. At packaging time
`JarEncryptor` copies every selected class into `META-INF/.classes/<name>`. Each
copy is encrypted under `password‖name` and, when the jar is bound to a machine,
a second time under `name‖code`. The class body itself is then stripped, and the
encryptor writes three markers beside the copies:

- the random seed of a generated password (no-password mode);
- `md5(code)`, when the jar is bound to a machine;
- a salted double `md5` of the password.

At run time the Java agent (`CoreAgent.premain`) settles on a password from a
chain of sources and checks it against the stored hash. It then installs an
`AgentTransformer`. For every class loaded from a protected jar, the transformer
asks `JarDecryptor.doDecrypt` for the decrypted copy and hands it to the JVM when
it starts with the class-file magic `0xCAFEBABE`.

The model covers the utilities this rests on:

- the MD5 XOR cipher and the hex digest rendering;
- the RSA block loop;
- the comma-list, glob and manifest-line helpers of `StrUtils`;
- the option parser;
- the root-path and zip entry-name rules of `JarUtils`.

It also covers the encryptor's state, the decryptor, the transformer and the
agent's start-up. Module `Protocol` ties the two sides together. Its main results:

- `doDecrypt` undoes `encryptClass` for the right password and machine;
- the start-up hash check accepts a candidate exactly when its salted double MD5 equals that of the hashed password, so it accepts that password;
- in no-password mode the generated password is recovered from the jar.

Modules, one per source file: `IoUtils`, `StrUtils`, `EncryptUtils`, `CmdLine`
(CmdLineOption), `JarUtils`, `JarEncryptor`, `JarDecryptor`, `AgentTransformer`,
`CoreAgent`, and `Constants`. Five more modules support them:

- `Protocol`: properties across the packaging and run-time sides;
- `Strings`: Java's `String` methods;
- `Bytes`: Java bytes and ASCII text;
- `Seqs`: sequence helpers;
- `Wrappers`: the option and result types.

Environment inputs are parameters:

- the file separator;
- the MD5 digest and the AES and RSA `doFinal` calls (`EncryptUtils.Crypto`);
- the random draws;
- the files on disk and the archive reader (`JarDecryptor.Runtime`, `JarDecryptor.Disk`);
- the environment, console and form answers (`CoreAgent.Host`).

`System.exit` and uncaught exceptions are outcome values.

## Model

| member | source | states |
|---|---|---|
| IoUtils.Merger | classfinal-core/src/main/java/com/hz/classfinal/util/IoUtils.java:275-288 | returns a fresh array whose length is the sum of the argument lengths and whose content is the arguments in order |
| IoUtils.ArrayCopy | classfinal-core/src/main/java/com/hz/classfinal/util/IoUtils.java:282-286 | `System.arraycopy` writes the source range into the target range and leaves the rest of the target as it was |
| IoUtils.OffsetMonotone | classfinal-core/src/main/java/com/hz/classfinal/util/IoUtils.java:282-286 | the offset at which argument k is copied never decreases with k |
| IoUtils.CopyPart | classfinal-core/src/main/java/com/hz/classfinal/util/IoUtils.java:284-285 | after copying argument i at `lastLen`, the filled prefix of `bt` is the concatenation of the first i + 1 arguments |
| IoUtils.CopyAll | classfinal-core/src/main/java/com/hz/classfinal/util/IoUtils.java:282-286 | copying every argument in turn, each after the previous ones, fills the result with the concatenation of the arguments |
| IoUtils.MergeStep | classfinal-core/src/main/java/com/hz/classfinal/util/IoUtils.java:284-285 | a prefix holding the first i arguments followed by argument i holds the first i + 1 arguments |
| StrUtils.ToList | classfinal-core/src/main/java/com/hz/classfinal/util/StrUtils.java:24-36 | `toList` gives the trimmed non-empty comma pieces in order, and nothing for `null` |
| StrUtils.ToListItems | classfinal-core/src/main/java/com/hz/classfinal/util/StrUtils.java:24-36 | every item of `toList` is non-empty, already trimmed and holds no comma |
| StrUtils.TrimIdempotent | classfinal-core/src/main/java/com/hz/classfinal/util/StrUtils.java:29 | trimming twice is trimming once |
| StrUtils.Merger | classfinal-core/src/main/java/com/hz/classfinal/util/StrUtils.java:84-92 | the result is the arguments concatenated in order, of the summed length |
| StrUtils.Equals | classfinal-core/src/main/java/com/hz/classfinal/util/StrUtils.java:127-138 | true exactly when both arrays are equal; a false result on equal lengths has a mismatching index |
| StrUtils.ContainsAny | classfinal-core/src/main/java/com/hz/classfinal/util/StrUtils.java:147-154 | true exactly when some element is a substring of the string |
| StrUtils.InsertedLines | classfinal-core/src/main/java/com/hz/classfinal/util/StrUtils.java:166-183 | one more line than the input; the inserted line sits at the first filter match (or last), and removing it gives the input back |
| StrUtils.InsertBefore | classfinal-core/src/main/java/com/hz/classfinal/util/StrUtils.java:166-183 | the StringBuilder loop writes every line of `InsertedLines` followed by CRLF |
| StrUtils.InsertedLinesKeep | classfinal-core/src/main/java/com/hz/classfinal/util/StrUtils.java:166-183 | no emitted line holds the delimiter when neither the lines nor the insert do; the last line is the last input line once a match was found, else the inserted one |
| StrUtils.SplitCrlfLines | classfinal-core/src/main/java/com/hz/classfinal/JarEncryptor.java:403-407 | CRLF-ended lines plus two more CRLF, split at CRLF, give the lines back when the last one is not empty |
| StrUtils.SplitAllCrlfLines | classfinal-core/src/main/java/com/hz/classfinal/JarEncryptor.java:403-407 | a full split at CRLF of CRLF-ended lines yields the lines first, then the pieces of whatever follows |
| StrUtils.StarMatches | classfinal-core/src/main/java/com/hz/classfinal/util/StrUtils.java:192-196 | the pattern `*` matches exactly the strings without line terminators |
| StrUtils.QuestionMarkMatches | classfinal-core/src/main/java/com/hz/classfinal/util/StrUtils.java:192-196 | `?` matches zero or one character that is not a line terminator |
| StrUtils.DotMatches | classfinal-core/src/main/java/com/hz/classfinal/util/StrUtils.java:192-196 | an unescaped `.` matches exactly one character that is not a line terminator |
| StrUtils.SelfMatch | classfinal-core/src/main/java/com/hz/classfinal/util/StrUtils.java:192-196 | a pattern matches itself when neither holds a line terminator |
| StrUtils.PrefixGlobMatches | classfinal-core/src/main/java/com/hz/classfinal/util/StrUtils.java:192-196 | `p*` matches every extension of `p` |
| StrUtils.AnyRunAbsorbs | classfinal-core/src/main/java/com/hz/classfinal/util/StrUtils.java:194 | a run of `*` absorbs any text before what the rest of the pattern matches |
| StrUtils.AnyHitsExists | classfinal-core/src/main/java/com/hz/classfinal/util/StrUtils.java:210-215 | the pattern scan finds a hit exactly when some pattern glob-matches, is a prefix, or is a suffix of the test string |
| StrUtils.IsMatchAny | classfinal-core/src/main/java/com/hz/classfinal/util/StrUtils.java:206-217 | returns `dv` for a null or empty list, otherwise whether some pattern hits |
| StrUtils.PatternSelectsItself | classfinal-core/src/main/java/com/hz/classfinal/util/StrUtils.java:212 | a pattern equal to the test string always selects it, whatever the default |
| EncryptUtils.Keystream | classfinal-core/src/main/java/com/hz/classfinal/util/EncryptUtils.java:137-140 | 32 bytes: md5(key‖SALT) then md5(SALT‖key) |
| EncryptUtils.XorMd5 | classfinal-core/src/main/java/com/hz/classfinal/util/EncryptUtils.java:137-145 | same length as the message; byte i is `msg[i] XOR ks[i mod 32]` |
| EncryptUtils.XorMd5Involution | classfinal-core/src/main/java/com/hz/classfinal/util/EncryptUtils.java:137-145 | applying the MD5 mode twice with one key gives the message back |
| EncryptUtils.Keys | classfinal-core/src/main/java/com/hz/classfinal/util/EncryptUtils.java:138-140 | the merged key array equals the keystream |
| EncryptUtils.XorMd5Byte | classfinal-core/src/main/java/com/hz/classfinal/util/EncryptUtils.java:137-145 | XORs the range in place, leaves the rest, returns the same array; over the whole array it computes `XorMd5` |
| EncryptUtils.Encryption | classfinal-core/src/main/java/com/hz/classfinal/util/EncryptUtils.java:45-56 | MD5 mode is the XOR cipher; AES and RSA get the derived key |
| EncryptUtils.Decryption | classfinal-core/src/main/java/com/hz/classfinal/util/EncryptUtils.java:66-77 | MD5 mode is the same XOR cipher; AES and RSA get the derived key |
| EncryptUtils.Md5ModeRoundTrip | classfinal-core/src/main/java/com/hz/classfinal/util/EncryptUtils.java:45-77 | in MD5 mode encryption equals decryption and decryption undoes encryption |
| EncryptUtils.DerivedKey | classfinal-core/src/main/java/com/hz/classfinal/util/EncryptUtils.java:50-52 | AES and RSA key material is 16 bytes, from the 16-char md5(key‖SALT) |
| EncryptUtils.DerivedKeyDecides | classfinal-core/src/main/java/com/hz/classfinal/util/EncryptUtils.java:50-52 | in AES and RSA mode two keys with the same short digest behave identically |
| EncryptUtils.Md5Hex | classfinal-core/src/main/java/com/hz/classfinal/util/EncryptUtils.java:112-126 | 32 chars, or 16 when small, that read back to the digest bytes (all 16, or bytes 8..15) |
| EncryptUtils.Md5 | classfinal-core/src/main/java/com/hz/classfinal/util/EncryptUtils.java:112-126 | the loop fills the two nibbles of each byte; the result has the stated length and only lower-case hex digits |
| EncryptUtils.HexAt | classfinal-core/src/main/java/com/hz/classfinal/util/EncryptUtils.java:121-123 | chars 2i and 2i+1 are the high and low nibble of byte i |
| EncryptUtils.UnhexHex | classfinal-core/src/main/java/com/hz/classfinal/util/EncryptUtils.java:118-124 | the hex rendering reads back to the same bytes |
| EncryptUtils.HexDigitsOnly | classfinal-core/src/main/java/com/hz/classfinal/util/EncryptUtils.java:24 | every char of a rendering is in `0123456789abcdef` |
| EncryptUtils.Md5HexInjective | classfinal-core/src/main/java/com/hz/classfinal/util/EncryptUtils.java:112-126 | two full renderings are equal exactly when the digests are |
| EncryptUtils.Md5HexIsAscii | classfinal-core/src/main/java/com/hz/classfinal/util/EncryptUtils.java:112-126 | a rendering is ASCII, so its UTF-8 bytes are one per char |
| EncryptUtils.BlockLength | classfinal-core/src/main/java/com/hz/classfinal/util/EncryptUtils.java:211-216 | blocks of 117 bytes when encrypting and 128 when decrypting |
| EncryptUtils.ChunksPartition | classfinal-core/src/main/java/com/hz/classfinal/util/EncryptUtils.java:211-230 | the blocks concatenate to the message, all full but a shorter last one, and there are none for an empty message |
| EncryptUtils.CipherDoFinal | classfinal-core/src/main/java/com/hz/classfinal/util/EncryptUtils.java:210-231 | the buffer loop calls `doFinal` once per block and concatenates the outputs in order; the first failure fails the call |
| EncryptUtils.LoadByte | classfinal-core/src/main/java/com/hz/classfinal/util/EncryptUtils.java:222-226 | `in` is reallocated only for a short last block, holds the bytes of the current block read so far, and `flush` is raised exactly when that block is complete |
| EncryptUtils.FlushStep | classfinal-core/src/main/java/com/hz/classfinal/util/EncryptUtils.java:226-227 | a flush either fails the whole call or appends the block's `doFinal` output to `out`, leaving the remaining blocks to do |
| EncryptUtils.RandomCharsOf | classfinal-core/src/main/java/com/hz/classfinal/util/EncryptUtils.java:294-302 | exactly `length` chars |
| EncryptUtils.RandomChars | classfinal-core/src/main/java/com/hz/classfinal/util/EncryptUtils.java:294-302 | exactly `length` chars, each from the 77-char alphabet |
| EncryptUtils.CharRange | classfinal-core/src/main/java/com/hz/classfinal/util/EncryptUtils.java:28-34 | the alphabet ranges are consecutive characters |
| EncryptUtils.RandomCharsAscii | classfinal-core/src/main/java/com/hz/classfinal/util/EncryptUtils.java:28-34 | random password chars are ASCII |
| CmdLine.Undash | classfinal-core/src/main/java/com/hz/classfinal/util/CmdLineOption.java:86-96 | the name after the leading dashes, or none when the text is all dashes or empty |
| CmdLine.ResolveOption | classfinal-core/src/main/java/com/hz/classfinal/util/CmdLineOption.java:86-96 | the loop computes the canonical name |
| CmdLine.ResolveIdempotent | classfinal-core/src/main/java/com/hz/classfinal/util/CmdLineOption.java:86-96 | resolving a resolved name changes nothing |
| CmdLine.DashesIgnored | classfinal-core/src/main/java/com/hz/classfinal/util/CmdLineOption.java:86-96 | extra leading dashes name the same option |
| CmdLine.Values | classfinal-core/src/main/java/com/hz/classfinal/util/CmdLineOption.java:56-58 | one trimmed value per comma piece; empty pieces are kept |
| CmdLine.ValuesSingle | classfinal-core/src/main/java/com/hz/classfinal/util/CmdLineOption.java:56-58 | a value without commas is stored as its trimmed self |
| CmdLine.CommaOnlyValues | classfinal-core/src/main/java/com/hz/classfinal/util/CmdLineOption.java:56-58 | a lone comma stores no values |
| CmdLine.BareFlagIgnored | classfinal-core/src/main/java/com/hz/classfinal/util/CmdLineOption.java:46-50 | an argument without `=` sets nothing |
| CmdLine.EmptyValueIgnored | classfinal-core/src/main/java/com/hz/classfinal/util/CmdLineOption.java:46-50 | `name=` sets nothing, because the trailing empty piece is dropped |
| CmdLine.ThreePiecesIgnored | classfinal-core/src/main/java/com/hz/classfinal/util/CmdLineOption.java:46-50 | `a=b=c` sets nothing |
| CmdLine.PairStored | classfinal-core/src/main/java/com/hz/classfinal/util/CmdLineOption.java:46-59 | `name=value` with a registered name stores the value's pieces under the resolved name, replacing earlier ones |
| CmdLine.UnregisteredIgnored | classfinal-core/src/main/java/com/hz/classfinal/util/CmdLineOption.java:55-60 | an unregistered name is ignored |
| CmdLine.TrailingEqualsAccepted | classfinal-core/src/main/java/com/hz/classfinal/util/CmdLineOption.java:46 | `name=value=` is stored like `name=value` |
| CmdLine.LastOccurrenceWins | classfinal-core/src/main/java/com/hz/classfinal/util/CmdLineOption.java:59 | the last occurrence of an option decides its values |
| CmdLine.FlagsIgnored | classfinal-core/src/main/java/com/hz/classfinal/util/CmdLineOption.java:46-50 | a list of arguments without `=` leaves the store unchanged |
| CmdLine.ParseAllRegistered | classfinal-core/src/main/java/com/hz/classfinal/util/CmdLineOption.java:43-63 | parsing stores only registered names and never removes one |
| CmdLine.ParseAllAppend | classfinal-core/src/main/java/com/hz/classfinal/util/CmdLineOption.java:43-63 | parsing two lists in turn is parsing their concatenation |
| CmdLine.OptionValues | classfinal-core/src/main/java/com/hz/classfinal/util/CmdLineOption.java:75-78 | the stored values of the resolved name, or none |
| CmdLine.OptionValue | classfinal-core/src/main/java/com/hz/classfinal/util/CmdLineOption.java:65-72 | the first stored value, or the default when none is stored |
| CmdLine.CommaOnlyValue | classfinal-core/src/main/java/com/hz/classfinal/util/CmdLineOption.java:56-72 | after `name=,` the option is present but `getOptionValue` returns the default |
| CmdLine.StoredPairRead | classfinal-core/src/main/java/com/hz/classfinal/util/CmdLineOption.java:43-83 | after `name=value` the option is present under any spelling of its name, with the value's pieces |
| CmdLine.CmdLineOption.constructor | classfinal-core/src/main/java/com/hz/classfinal/util/CmdLineOption.java:20-23 | empty registry and store |
| CmdLine.CmdLineOption.AddOption | classfinal-core/src/main/java/com/hz/classfinal/util/CmdLineOption.java:32-40 | registers a name at most once, keeps the first flag and description, keeps the three lists parallel |
| CmdLine.CmdLineOption.Register | classfinal-core/src/main/java/com/hz/classfinal/util/CmdLineOption.java:36-38 | a name not yet registered is appended to the three lists with its flag and description; the registry stays consistent and stored values are untouched |
| CmdLine.ConsistentSnoc | classfinal-core/src/main/java/com/hz/classfinal/util/CmdLineOption.java:32-40 | appending a name not yet registered keeps the lists parallel, the names distinct and every stored key registered |
| CmdLine.CmdLineOption.Parse | classfinal-core/src/main/java/com/hz/classfinal/util/CmdLineOption.java:43-63 | the store becomes `ParseAll` of the old store; the registry is unchanged |
| CmdLine.CmdLineOption.GetOptionValues | classfinal-core/src/main/java/com/hz/classfinal/util/CmdLineOption.java:75-78 | returns `OptionValues` of the store |
| CmdLine.CmdLineOption.GetOptionValue | classfinal-core/src/main/java/com/hz/classfinal/util/CmdLineOption.java:65-72 | returns `OptionValue` of the store |
| CmdLine.CmdLineOption.HasOption | classfinal-core/src/main/java/com/hz/classfinal/util/CmdLineOption.java:81-83 | true exactly when parsing stored the resolved name |
| JarUtils.StripScheme | classfinal-core/src/main/java/com/hz/classfinal/util/JarUtils.java:235-247 | removes the scheme once when the path starts with it, otherwise keeps the path |
| JarUtils.StripSchemesSuffix | classfinal-core/src/main/java/com/hz/classfinal/util/JarUtils.java:235-247 | what is left after the schemes is a suffix of the path |
| JarUtils.NestedUrlStripped | classfinal-core/src/main/java/com/hz/classfinal/util/JarUtils.java:235-247 | `jar:nested:p` loses both schemes |
| JarUtils.SchemeOrderMatters | classfinal-core/src/main/java/com/hz/classfinal/util/JarUtils.java:235-247 | `file:jar:p` keeps `jar:`, since the schemes are tried in a fixed order |
| JarUtils.RootOf | classfinal-core/src/main/java/com/hz/classfinal/util/JarUtils.java:250-269 | every root is a prefix of the stripped path |
| JarUtils.RootOfNone | classfinal-core/src/main/java/com/hz/classfinal/util/JarUtils.java:250-269 | null exactly when none of the five rules applies |
| JarUtils.RootOfCut | classfinal-core/src/main/java/com/hz/classfinal/util/JarUtils.java:250-261 | the first of `*`, `WEB-INF`, `!` present decides, and the root ends at its first occurrence |
| JarUtils.RootOfArchiveOrClasses | classfinal-core/src/main/java/com/hz/classfinal/util/JarUtils.java:262-269 | an archive path is its own root, otherwise the root ends after the first `/classes/` |
| JarUtils.ArchiveIsItsOwnRoot | classfinal-core/src/main/java/com/hz/classfinal/util/JarUtils.java:221-270 | a plain `.jar` path resolves to itself |
| JarUtils.StyleFileNames | classfinal-core/src/main/java/com/hz/classfinal/util/JarUtils.java:24 | a style file ends with `.DS_Store` or `Thumbs.db` |
| JarUtils.IsStyleFile | classfinal-core/src/main/java/com/hz/classfinal/util/JarUtils.java:194-201 | the loop answers whether the path ends with a style-file name |
| JarUtils.EntryName | classfinal-core/src/main/java/com/hz/classfinal/util/JarUtils.java:52-53 | the path relative to the directory, with separators turned into `/` |
| JarUtils.EntryFor | classfinal-core/src/main/java/com/hz/classfinal/util/JarUtils.java:52-80 | directories get a trailing `/`; `.jar` entries are STORED with size and CRC; other files are DEFLATED |
| JarUtils.Packed | classfinal-core/src/main/java/com/hz/classfinal/util/JarUtils.java:48-51 | exactly the files that are not style files are packed |
| JarUtils.PlanNamesUseSlash | classfinal-core/src/main/java/com/hz/classfinal/util/JarUtils.java:52-53 | no entry name holds the platform separator, unless that is `/` |
| JarUtils.CompressJar | classfinal-core/src/main/java/com/hz/classfinal/util/JarUtils.java:49-79 | the loop plans one entry per packed file, in listing order |
| JarUtils.PlanSnoc | classfinal-core/src/main/java/com/hz/classfinal/util/JarUtils.java:56-75 | one more listed file adds exactly its own entry at the end of the plan, or nothing for a style file |
| JarUtils.SimpleNameIsLastSegment | classfinal-core/src/main/java/com/hz/classfinal/util/JarUtils.java:137-138 | `getName()` is the separator-free tail of the path |
| JarUtils.Extracted | classfinal-core/src/main/java/com/hz/classfinal/util/JarUtils.java:131-146 | at most one path per entry |
| JarUtils.ExtractedMembers | classfinal-core/src/main/java/com/hz/classfinal/util/JarUtils.java:131-146 | a path is returned exactly when it belongs to a file entry the filter does not reject |
| JarUtils.ExtractedAllFiles | classfinal-core/src/main/java/com/hz/classfinal/util/JarUtils.java:131-146 | without a filter every file entry is returned |
| JarUtils.UncompressJar | classfinal-core/src/main/java/com/hz/classfinal/util/JarUtils.java:108-149 | the loop returns `Extracted`, in entry order |
| JarEncryptor.InitCheck | classfinal-core/src/main/java/com/hz/classfinal/JarEncryptor.java:170-192 | each failure exactly when its check is the first to fail: no path, missing file, no `.`, another extension, empty password |
| JarEncryptor.Encryptor.InitParam | classfinal-core/src/main/java/com/hz/classfinal/JarEncryptor.java:170-207 | the error is `InitCheck`; on success the extension, the kind, the temp directory and the lib and classes directories are set, and each failure leaves exactly the fields set before it |
| JarEncryptor.TempWorkOfJar | classfinal-core/src/main/java/com/hz/classfinal/JarEncryptor.java:198-200 | `/a/app.jar` works in `/a/app__temp__` |
| JarEncryptor.Encryptor.IsNoPwdMode | classfinal-core/src/main/java/com/hz/classfinal/JarEncryptor.java:228-230 | true exactly when the password is `#` |
| JarEncryptor.ClassInfoSplit | classfinal-core/src/main/java/com/hz/classfinal/JarEncryptor.java:566-608 | the path minus `.class` is the code location, one character and the raw class path; under a classes marker and no lib marker that character is the separator |
| JarEncryptor.ClassNameDots | classfinal-core/src/main/java/com/hz/classfinal/JarEncryptor.java:566-608 | the class name has the raw class path's length, with every separator turned into `.` and every other character kept |
| JarEncryptor.ClassNameHasNoSeparator | classfinal-core/src/main/java/com/hz/classfinal/JarEncryptor.java:602 | a class name holds no separator |
| JarEncryptor.ClassesDirSplit | classfinal-core/src/main/java/com/hz/classfinal/JarEncryptor.java:593-596 | a class under `/classes/` and not under `/lib/` is located at the classes directory |
| JarEncryptor.RawStart | classfinal-core/src/main/java/com/hz/classfinal/JarEncryptor.java:580-600 | the raw class path starts after the temp suffix at the earliest |
| JarEncryptor.Encryptor.ResolveClassName | classfinal-core/src/main/java/com/hz/classfinal/JarEncryptor.java:566-608 | fails with StringIndexOutOfBoundsException exactly when the path is shorter than `.class` or its raw class path would start past the stem, and then leaves the memo alone; otherwise returns the class name or the location, a hit keeps the memo and a miss adds the path and both values |
| JarEncryptor.SelectedMembers | classfinal-core/src/main/java/com/hz/classfinal/JarEncryptor.java:238-253 | selected exactly: the `.class` paths whose class name matches `packages` and not `excludeClass` |
| JarEncryptor.NothingSelectedWithoutPackages | classfinal-core/src/main/java/com/hz/classfinal/JarEncryptor.java:246 | a missing or empty `packages` list selects nothing |
| JarEncryptor.SelectedInOrder | classfinal-core/src/main/java/com/hz/classfinal/JarEncryptor.java:238-253 | the selection keeps input order |
| JarEncryptor.Encryptor.IsSelectedClass | classfinal-core/src/main/java/com/hz/classfinal/JarEncryptor.java:244-247 | fails exactly when the path cannot be resolved; otherwise the test of one path, with the path added to the memo |
| JarEncryptor.Encryptor.KeepsPath | classfinal-core/src/main/java/com/hz/classfinal/JarEncryptor.java:241-248 | fails exactly on a `.class` path that cannot be resolved; otherwise keeps a path exactly when `SelectsPath` holds, and only a `.class` path enters the memo |
| JarEncryptor.FirstUnresolvable | classfinal-core/src/main/java/com/hz/classfinal/JarEncryptor.java:240-244 | the position of the first `.class` path that cannot be resolved, the length exactly when every one can |
| JarEncryptor.Encryptor.ExtractClasses | classfinal-core/src/main/java/com/hz/classfinal/JarEncryptor.java:238-253 | fails exactly when some `.class` path cannot be resolved, otherwise returns `Selected`; the memo gains exactly the `.class` paths before the first unresolvable one |
| JarEncryptor.LibJars | classfinal-core/src/main/java/com/hz/classfinal/JarEncryptor.java:131-145 | the nested archives unpacked are the `.jar` paths whose file name `includeJars` selects |
| JarEncryptor.LibTempWorkOfJar | classfinal-core/src/main/java/com/hz/classfinal/JarEncryptor.java:136 | a nested jar unpacks to its path minus `.jar` plus `__temp__` |
| JarEncryptor.OutJarOfJar | classfinal-core/src/main/java/com/hz/classfinal/JarEncryptor.java:552 | `/a/app.jar` is packaged to `/a/app-encrypted.jar` |
| JarEncryptor.CharArrayCode | classfinal-core/src/main/java/com/hz/classfinal/JarEncryptor.java:505-519 | `{` then the quoted chars separated by commas then `}`, and `{}` for none |
| JarEncryptor.CharArrayCodeRoundTrip | classfinal-core/src/main/java/com/hz/classfinal/JarEncryptor.java:505-519 | the characters can be read back from the initialiser |
| JarEncryptor.Encryptor.ToCharArrayCode | classfinal-core/src/main/java/com/hz/classfinal/JarEncryptor.java:505-519 | the StringBuilder loop with its `first` flag builds `CharArrayCode` |
| JarEncryptor.GetCodeFillsPlaceholder | classfinal-core/src/main/java/com/hz/classfinal/JarEncryptor.java:650-652 | the placeholder is replaced by the value and the rest is kept |
| JarEncryptor.GetCodeWithoutPlaceholder | classfinal-core/src/main/java/com/hz/classfinal/JarEncryptor.java:650-652 | code without the placeholder is returned as it is |
| JarEncryptor.PayloadNames | classfinal-core/src/main/java/com/hz/classfinal/JarEncryptor.java:284-298 | one name per class file, in input order |
| JarEncryptor.Payload | classfinal-core/src/main/java/com/hz/classfinal/JarEncryptor.java:289-296 | the content encrypted under `pw‖name`, then under `name‖code` when a code is set |
| JarEncryptor.StoreAllPayload | classfinal-core/src/main/java/com/hz/classfinal/JarEncryptor.java:284-300 | after the loop each payload path holds its class file's original content under the layered keys |
| JarEncryptor.StoreAllUntouched | classfinal-core/src/main/java/com/hz/classfinal/JarEncryptor.java:284-300 | a path that is no payload path keeps its content |
| JarEncryptor.StoreAllKeys | classfinal-core/src/main/java/com/hz/classfinal/JarEncryptor.java:284-300 | the loop only adds paths |
| JarEncryptor.GeneratedPasswordIsFinal | classfinal-core/src/main/java/com/hz/classfinal/JarEncryptor.java:268-274 | a generated password is not `#` again, so a second call does not regenerate |
| JarEncryptor.WithMarkers | classfinal-core/src/main/java/com/hz/classfinal/JarEncryptor.java:268-281 | in no-password mode the random chars are stored; with a code, md5(code) is stored; nothing else changes |
| JarEncryptor.EncryptedMarkers | classfinal-core/src/main/java/com/hz/classfinal/JarEncryptor.java:268-305 | after `encryptClass` the markers and the password hash hold what the run-time side reads |
| JarEncryptor.EncryptedPayload | classfinal-core/src/main/java/com/hz/classfinal/JarEncryptor.java:261-308 | after `encryptClass` every class's payload is its original content under the layered keys |
| JarEncryptor.Encryptor.PayloadFileName | classfinal-core/src/main/java/com/hz/classfinal/JarEncryptor.java:285-288 | the class name of a `.class` file, else its simple name |
| JarEncryptor.Encryptor.StorePayload | classfinal-core/src/main/java/com/hz/classfinal/JarEncryptor.java:285-298 | one round stores the layered payload under the class name |
| JarEncryptor.Encryptor.EncryptPayload | classfinal-core/src/main/java/com/hz/classfinal/JarEncryptor.java:290-296 | the two layers compute `Payload` |
| JarEncryptor.Encryptor.StorePayloads | classfinal-core/src/main/java/com/hz/classfinal/JarEncryptor.java:284-300 | the loop leaves `StoreAll` and returns the names in input order |
| JarEncryptor.Encryptor.WriteMarkers | classfinal-core/src/main/java/com/hz/classfinal/JarEncryptor.java:268-281 | sets the active password and writes `WithMarkers` |
| JarEncryptor.Encryptor.WritePassHash | classfinal-core/src/main/java/com/hz/classfinal/JarEncryptor.java:303-305 | stores md5(SALT‖md5(pw‖SALT)) |
| JarEncryptor.Encryptor.EncryptClass | classfinal-core/src/main/java/com/hz/classfinal/JarEncryptor.java:261-308 | the files become `EncryptedFiles` and the result is the payload names in input order |
| JarEncryptor.StrippedAt | classfinal-core/src/main/java/com/hz/classfinal/JarEncryptor.java:345-358 | a class whose stripping fails keeps its bytes; the others get the stripped bytes |
| JarEncryptor.Encryptor.ClearClassMethod | classfinal-core/src/main/java/com/hz/classfinal/JarEncryptor.java:345-358 | the loop leaves `Stripped` and writes nothing else |
| JarEncryptor.ManifestLines | classfinal-core/src/main/java/com/hz/classfinal/JarEncryptor.java:399-404 | no manifest line holds CRLF; only a lone line can be empty at the end |
| JarEncryptor.ManifestReadBack | classfinal-core/src/main/java/com/hz/classfinal/JarEncryptor.java:398-407 | the written manifest reads back as the old lines with the Premain-Class line inserted |
| JarEncryptor.ManifestGrows | classfinal-core/src/main/java/com/hz/classfinal/JarEncryptor.java:398-407 | each packaging adds one Premain-Class line, so repeating it repeats the line |
| JarEncryptor.FreshManifest | classfinal-core/src/main/java/com/hz/classfinal/JarEncryptor.java:398-407 | without a manifest the file is the Premain-Class line and two blank lines |
| JarDecryptor.DropTrailing | classfinal-core/src/main/java/com/hz/classfinal/JarDecryptor.java:93 | `java.io.File` drops exactly the trailing separators: the result is a prefix ending in no separator, followed only by separators |
| JarDecryptor.FileOfEndsWithChild | classfinal-core/src/main/java/com/hz/classfinal/JarDecryptor.java:93 | `new File(parent, child)` ends with the child minus its trailing separators, and is the parent when nothing of the child is left |
| JarDecryptor.FileOfJoin | classfinal-core/src/main/java/com/hz/classfinal/JarDecryptor.java:93 | a parent and a child that do not end in a separator are joined by one separator |
| JarDecryptor.EmptyNameReadsPayloadDirectory | classfinal-core/src/main/java/com/hz/classfinal/JarDecryptor.java:88-95 | from a classes directory the empty name reads the directory `META-INF/.classes` itself, and the read fails |
| JarDecryptor.ReadEncryptedFile | classfinal-core/src/main/java/com/hz/classfinal/JarDecryptor.java:88-95 | a jar is read at entry `META-INF/.classes/<name>`, a directory at the file below it |
| JarDecryptor.ReadPassFromJar | classfinal-core/src/main/java/com/hz/classfinal/JarDecryptor.java:104-107 | md5 of the hidden chars (32 ASCII chars), absent exactly when the marker is |
| JarDecryptor.UnlockPassword | classfinal-core/src/main/java/com/hz/classfinal/JarDecryptor.java:67-70 | a password other than `#` is used as it is |
| JarDecryptor.PasswordLayer | classfinal-core/src/main/java/com/hz/classfinal/JarDecryptor.java:68-74 | succeeds exactly when there is a password, keeping the length |
| JarDecryptor.DoDecrypt | classfinal-core/src/main/java/com/hz/classfinal/JarDecryptor.java:47-79 | no payload means not protected; an exit only on a marker that differs from md5(code); decrypted bytes have the payload's length |
| JarDecryptor.Decrypt | classfinal-core/src/main/java/com/hz/classfinal/JarDecryptor.java:47-79 | the step-by-step method computes `DoDecrypt` |
| JarDecryptor.NoMarkerMeansPasswordOnly | classfinal-core/src/main/java/com/hz/classfinal/JarDecryptor.java:55-74 | without a code marker only the password layer is removed |
| JarDecryptor.HiddenPasswordMissing | classfinal-core/src/main/java/com/hz/classfinal/JarDecryptor.java:68-74 | `#` with no hidden password fails in `merger` |
| JarDecryptor.LayerOrder | classfinal-core/src/main/java/com/hz/classfinal/JarDecryptor.java:63-74 | the machine layer is removed before the password layer |
| JarDecryptor.DecryptConfigFile | classfinal-core/src/main/java/com/hz/classfinal/JarDecryptor.java:116-133 | `.class` paths and empty roots pass through; non-empty content is served unchanged; empty content is replaced by the decrypted payload, stays as it is when there is no payload, and otherwise exits with -1 or throws as `doDecrypt` does |
| JarDecryptor.ContentServedAsIs | classfinal-core/src/main/java/com/hz/classfinal/JarDecryptor.java:116-133 | readable content is served exactly as it is |
| AgentTransformer.NewAgentTransformer | classfinal-core/src/main/java/com/hz/classfinal/AgentTransformer.java:24-26 | a null password is refused |
| AgentTransformer.LookupName | classfinal-core/src/main/java/com/hz/classfinal/AgentTransformer.java:43 | `/` and `\` become `.`, everything else is kept |
| AgentTransformer.LookupNameIgnoresSpelling | classfinal-core/src/main/java/com/hz/classfinal/AgentTransformer.java:43 | names differing only in `/`, `\` and `.` look up the same payload |
| AgentTransformer.Transform | classfinal-core/src/main/java/com/hz/classfinal/AgentTransformer.java:29-59 | without name, domain or loader the buffer is returned; the result is the buffer or a class file; exits have status -1; only a domain without a location throws |
| AgentTransformer.DecryptedClassReplacesBuffer | classfinal-core/src/main/java/com/hz/classfinal/AgentTransformer.java:45-53 | a payload decrypting to a class file replaces the buffer |
| AgentTransformer.UnprotectedClassUntouched | classfinal-core/src/main/java/com/hz/classfinal/AgentTransformer.java:45-57 | a class without a payload is loaded as it is |
| CoreAgent.Parent | classfinal-core/src/main/java/com/hz/classfinal/CoreAgent.java:137 | `getParent` is a shorter prefix, and none without a separator |
| CoreAgent.PasswordFile | classfinal-core/src/main/java/com/hz/classfinal/CoreAgent.java:134-144 | a password file is chosen only for an existing jar with a parent |
| CoreAgent.OwnPasswordFileFirst | classfinal-core/src/main/java/com/hz/classfinal/CoreAgent.java:137-140 | `<jarname>-password.txt` wins over `password.txt` |
| CoreAgent.SharedPasswordFileSecond | classfinal-core/src/main/java/com/hz/classfinal/CoreAgent.java:141-143 | without its own file the jar falls back to `password.txt` |
| CoreAgent.ReadPasswordFromFile | classfinal-core/src/main/java/com/hz/classfinal/CoreAgent.java:130-156 | null unless the root is a `.jar`; empty text gives null; with `del` the file is emptied, otherwise nothing changes |
| CoreAgent.ReadPasswordFile | classfinal-core/src/main/java/com/hz/classfinal/CoreAgent.java:130-156 | the step-by-step method computes `ReadPasswordFromFile` |
| CoreAgent.FindPasswordFile | classfinal-core/src/main/java/com/hz/classfinal/CoreAgent.java:134-144 | the lookup settles on exactly the file `PasswordFile` names, and on none unless the jar and its directory exist |
| CoreAgent.ChoosePasswordFile | classfinal-core/src/main/java/com/hz/classfinal/CoreAgent.java:139-143 | the jar's own `<name>-password.txt` is taken when it exists, otherwise the shared `password.txt` beside it |
| CoreAgent.FirstNonEmpty | classfinal-core/src/main/java/com/hz/classfinal/CoreAgent.java:56-97 | the first non-empty candidate, and none exactly when all are empty |
| CoreAgent.ChosenPassword | classfinal-core/src/main/java/com/hz/classfinal/CoreAgent.java:46-97 | the password chain changes no file set |
| CoreAgent.PasswordPrecedence | classfinal-core/src/main/java/com/hz/classfinal/CoreAgent.java:46-97 | without `nopwd` the password is the first non-empty of jar, `pwd`, environment, file, console, form |
| CoreAgent.NoPwdFlagWins | classfinal-core/src/main/java/com/hz/classfinal/CoreAgent.java:50-53 | `nopwd` forces `#` and leaves the password file alone |
| CoreAgent.DiskKeptWhenEarlierSourceWins | classfinal-core/src/main/java/com/hz/classfinal/CoreAgent.java:74-78 | the password file is not read when an earlier source answered |
| CoreAgent.NoPwdFlagMeetsHash | classfinal-core/src/main/java/com/hz/classfinal/CoreAgent.java:50-53 | `nopwd` against a stored hash of another password exits with status 0 |
| CoreAgent.PremainOf | classfinal-core/src/main/java/com/hz/classfinal/CoreAgent.java:24-120 | no root returns at once; a password read that fails aborts; no password from any source exits with status 0; every exit has status 0; a start means a hash check passed; a transformer is added exactly when `inst` is present |
| CoreAgent.AgentOptions | classfinal-core/src/main/java/com/hz/classfinal/CoreAgent.java:25-35 | the registry holds the five agent options and the parsed arguments |
| CoreAgent.AgentRegistry | classfinal-core/src/main/java/com/hz/classfinal/CoreAgent.java:25-30 | the five `addOption` calls register `pwd`, `pwdname`, `nopwd`, `debug`, `del` in that order and parse nothing |
| CoreAgent.AgentNameStep | classfinal-core/src/main/java/com/hz/classfinal/CoreAgent.java:26-30 | each agent option name resolves to itself and differs from the names registered before it, so every `addOption` appends |
| CoreAgent.AddAgentOption | classfinal-core/src/main/java/com/hz/classfinal/CoreAgent.java:26-30 | each `addOption` of `premain` appends its option to the registry and parses nothing |
| CoreAgent.SeekPassword | classfinal-core/src/main/java/com/hz/classfinal/CoreAgent.java:46-97 | the guarded assignments compute `ChosenPassword` |
| CoreAgent.Premain | classfinal-core/src/main/java/com/hz/classfinal/CoreAgent.java:24-120 | the method computes `PremainOf` |
| Protocol.RuntimePathOfPayload | classfinal-core/src/main/java/com/hz/classfinal/JarDecryptor.java:24 | the path read at run time is the path `encryptClass` wrote |
| Protocol.PayloadEntryName | classfinal-core/src/main/java/com/hz/classfinal/util/JarUtils.java:52-53 | a payload file is packed under the entry name the run time reads |
| Protocol.EntryNameInjective | classfinal-core/src/main/java/com/hz/classfinal/util/JarUtils.java:52-53 | distinct files below one root get distinct entry names |
| Protocol.StrippedServes | classfinal-core/src/main/java/com/hz/classfinal/JarEncryptor.java:345-358 | clearing method bodies after `encryptClass` changes nothing the run time reads under `META-INF/.classes` |
| Protocol.DirectoryServes | classfinal-core/src/main/java/com/hz/classfinal/JarDecryptor.java:88-95 | run from the working directory, every read of a non-empty one-segment name finds its file |
| Protocol.EntryData | classfinal-core/src/main/java/com/hz/classfinal/util/JarUtils.java:176-187 | the data of the first entry named exactly `n`, and nothing exactly when no entry has that name |
| Protocol.GetEntry | classfinal-core/src/main/java/com/hz/classfinal/util/JarUtils.java:179 | `getEntry(n)` finds the entry named `n`, else, when `n` does not end in `/`, the directory entry `n/`; nothing exactly when neither exists |
| Protocol.NoDirectoryTwin | classfinal-core/src/main/java/com/hz/classfinal/util/JarUtils.java:48-80 | with no directory listed at a payload path, `compressJar` writes no directory entry `META-INF/.classes/<name>/` for `getEntry` to fall back on |
| Protocol.DirectoryNotPayload | classfinal-core/src/main/java/com/hz/classfinal/util/JarUtils.java:52-53 | a path below the root other than a payload path gets another entry name |
| Protocol.FileEntryNameNoSlash | classfinal-core/src/main/java/com/hz/classfinal/util/JarUtils.java:52-53 | a path that does not end in the separator gets an entry name that does not end in `/` |
| Protocol.StyleChild | classfinal-core/src/main/java/com/hz/classfinal/util/JarUtils.java:194-201 | a file in `META-INF/.classes` is skipped as a style file only when its name is one |
| Protocol.SuffixOfChild | classfinal-core/src/main/java/com/hz/classfinal/util/JarUtils.java:194-201 | a suffix without the separator of `<dir>/<name>` is a suffix of `name` |
| Protocol.SeparatorInLongSuffix | classfinal-core/src/main/java/com/hz/classfinal/util/JarUtils.java:194-201 | a suffix of `<dir>/<name>` longer than `name` holds the separator |
| Protocol.PayloadPathBelow | classfinal-core/src/main/java/com/hz/classfinal/util/JarUtils.java:52-53 | a payload file lies below the packed root, so `compressJar` names it relative to that root |
| Protocol.PlannedPayloadIsFile | classfinal-core/src/main/java/com/hz/classfinal/util/JarUtils.java:48-80 | an entry `compressJar` writes under a payload name is not a directory entry and holds that payload file |
| Protocol.FileIsPlanned | classfinal-core/src/main/java/com/hz/classfinal/util/JarUtils.java:48-80 | a payload file whose name is not a style name gets an entry |
| Protocol.PayloadInPlan | classfinal-core/src/main/java/com/hz/classfinal/util/JarUtils.java:34-80 | the entries `compressJar` writes hold each non-style payload name's file, and none when the file is missing |
| Protocol.JarServes | classfinal-core/src/main/java/com/hz/classfinal/JarDecryptor.java:88-95 | run from the jar `compressJar` packed, directory entries included and read through `getEntry`, every read of a non-empty one-segment name that is not a style name finds its file, provided no directory sits at a payload path |
| Protocol.NotStyle | classfinal-core/src/main/java/com/hz/classfinal/util/JarUtils.java:194-201 | a name that ends in neither `re` nor `db` is no style name |
| Protocol.HiddenPasswordRecovered | classfinal-core/src/main/java/com/hz/classfinal/JarDecryptor.java:104-107 | in no-password mode `readPassFromJar` returns the generated password |
| Protocol.CodeMarkerRead | classfinal-core/src/main/java/com/hz/classfinal/JarDecryptor.java:55-60 | the code marker read back is md5 of the run's code |
| Protocol.CodeMarkerAbsent | classfinal-core/src/main/java/com/hz/classfinal/JarEncryptor.java:277-281 | without a code no code marker exists |
| Protocol.ClassRoundTrip | classfinal-core/src/main/java/com/hz/classfinal/JarDecryptor.java:47-79 | `doDecrypt` returns the original class bytes for the run's password, or `#` in no-password mode, on the bound machine |
| Protocol.PayloadPeels | classfinal-core/src/main/java/com/hz/classfinal/JarDecryptor.java:47-79 | `doDecrypt` undoes the two cipher layers of a payload when the machine marker matches the bound code (or is absent for an unbound payload) and the password unlocks to the key |
| Protocol.ForeignMachineExits | classfinal-core/src/main/java/com/hz/classfinal/JarDecryptor.java:55-60 | on another machine every protected class exits with status -1 |
| Protocol.ProtectedClassLoads | classfinal-core/src/main/java/com/hz/classfinal/AgentTransformer.java:29-59 | the JVM receives the original class for a protected class |
| Protocol.HashCheck | classfinal-core/src/main/java/com/hz/classfinal/CoreAgent.java:106-115 | the hash accepts a candidate exactly when its salted digest equals the run password's, and accepts the run password |
| Protocol.WrongPasswordRefused | classfinal-core/src/main/java/com/hz/classfinal/CoreAgent.java:106-115 | a candidate with another salted digest is refused |
| Protocol.KeyNotEmpty | classfinal-core/src/main/java/com/hz/classfinal/JarEncryptor.java:268-270 | the keying password is never empty and never `#` |
| Protocol.RightPasswordStarts | classfinal-core/src/main/java/com/hz/classfinal/CoreAgent.java:100-119 | the run's password starts the agent with a transformer holding it |
| Protocol.WrongPasswordExits | classfinal-core/src/main/java/com/hz/classfinal/CoreAgent.java:106-115 | a refused password ends `premain` with status 0 |
| Protocol.NoPasswordModeStarts | classfinal-core/src/main/java/com/hz/classfinal/CoreAgent.java:46-119 | a no-password jar starts with the generated password |
| Protocol.NoPwdOptionExits | classfinal-core/src/main/java/com/hz/classfinal/CoreAgent.java:50-115 | the `nopwd` option on a jar hashed with another password exits with status 0 |

## Left out

- Zip and file I/O are not modelled. This covers stream copying, CRC-32, directory creation and deletion, and reading the manifest file. Files are a map from path to bytes. The jar reader is the `Runtime.extract` parameter; `Protocol.Holds` ties it to the entries `compressJar` writes.
- The bodies of MD5, AES, RSA key decoding and `Cipher.doFinal` are parameters (`EncryptUtils.Crypto`). So is the CRC function of `compressJar`.
- javassist is not modelled: `ClassUtils`, the class-path set-up of `clearClassMethod` and the code injection. Body stripping is a parameter that may fail.
- UTF-8 conversion is exact only for ASCII text. That covers the hex digests and the random alphabet, which are the only texts the core converts.
- `JarUtils.getRootPath()` with no argument and URL decoding are not modelled. The path is taken as already decoded.
- `extractFile` is the `Runtime.extract` parameter.
- `java.io.File` normalisation is modelled only for `/`, a child's trailing separators and a single separator between parent and child. Windows drive prefixes, repeated separators inside a path and a child's leading separator are not collapsed. `JarUtils.OutPath` also does not convert the `/` in an entry name to the platform separator, so when the separator is `\` the simple name that `JarUtils.Excluded` tests can differ from the one `File.getName()` gives.
- Protocol.Serves: the empty name is not covered. From a directory it reads `META-INF/.classes` itself and fails (`JarDecryptor.EmptyNameReadsPayloadDirectory`). From a jar it reads the empty directory entry `META-INF/.classes/`, which no lemma states.
- Protocol.GetEntry: which of several entries with one name the JDK returns is not modelled; the first is taken, and `compressJar` writes one entry per listed path (`Protocol.EntryNameInjective`).
- Protocol.JarServes: a payload whose name is a style name (`.DS_Store`, `Thumbs.db`) is skipped by `compressJar`, so the packed-jar theorems exclude it (their `packed` flag).
- Names that hold `/` while the separator is `\` are excluded from the round-trip theorems (`Protocol.Segment`).
- `System.exit`, the console, the GUI form and environment variables are inputs or outcome values.
- The machine code is a parameter. SysUtils is not part of this model.
- The `JarDecryptor` singleton, concurrent class loading, `ConsoleLog`, the DEBUG flag and `Main.java` are not modelled.
- `encryptConfigFile`, `matchClassFile` with its regular expression, and the copying of the agent's own classes in `addClassFinalAgent` are not modelled. `doEncryptJar` is modelled only through its naming rules and steps.
- `StrUtils.isMatch` is modelled for literal characters plus `.`, `?` and `*`. Other regular-expression syntax in a pattern is not.
- CmdLine.CmdLineOption.Parse: the `hasArgs` and `descriptions` lists are kept, but nothing reads them.
- CoreAgent.ReadPasswordFromFile: an exception from emptying the file is not modelled.
- JarDecryptor.DoDecrypt: a failing read is an exception outcome, whatever the IOException's cause.
