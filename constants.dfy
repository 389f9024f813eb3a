/** The fixed names ClassFinal writes into and looks up in a protected archive. */
module Constants {
  import EncryptUtils

  const JAR_SCHEME: string := "jar:"
  const WAR_SCHEME: string := "war:"
  const FILE_SCHEME: string := "file:"
  const NESTED_SCHEME: string := "nested:"

  const CLASS_EXT: string := ".class"
  const JAR_EXT: string := ".jar"
  const WAR_EXT: string := ".war"
  const WEB_INF: string := "WEB-INF"
  const META_INF: string := "META-INF"

  /** The cipher used for every payload: the MD5 keystream. */
  const ENCRYPT_TYPE: EncryptUtils.EncryptType := EncryptUtils.MD5

  /** Directory, under META-INF, that holds the encrypted payloads. */
  const FILE_NAME: string := ".classes"

  /** Suffix of the directory a nested jar is unpacked into. */
  const TEMP_SUFFIX: string := "__temp__"

  /** Marker file holding the generated password chars (no-password mode). */
  const CONFIG_PASS: string := "org.springframework.config.Pass"
  /** Marker file holding md5 of the machine code. */
  const CONFIG_CODE: string := "org.springframework.config.Code"
  /** Marker file holding the password hash. */
  const CONFIG_PASSHASH: string := "org.springframework.config.PassHash"
}
