/** Object IDs and tree-entry modes. */
module GitTypes {
  import opened Bytes

  datatype HashAlgorithm = Sha1 | Sha256 | LfsSha256

  function RawLen(algorithm: HashAlgorithm): nat {
    match algorithm
    case Sha1 => 20
    case Sha256 => 32
    case LfsSha256 => 32
  }

  datatype RawObjectId = ObjectId(algorithm: HashAlgorithm, raw: ByteString)

  type ObjectId = o: RawObjectId | |o.raw| == RawLen(o.algorithm) witness ObjectId(Sha1, Zeros(20))

  /** A SHA-1 digest. */
  type Digest = d: ByteString | |d| == 20 witness Zeros(20)

  const MODE_DIRECTORY: U32 := 0x4000  // 0o040000
  const MODE_REGULAR: U32 := 0x81A4    // 0o100644
  const MODE_EXECUTABLE: U32 := 0x81ED // 0o100755
  const MODE_SYMLINK: U32 := 0xA000    // 0o120000
  const MODE_GITLINK: U32 := 0xE000    // 0o160000

  /** The modes by their octal digits: 040000, 100644, 100755, 120000 and 160000. */
  lemma ModesInOctal()
    ensures MODE_DIRECTORY == ((((0 * 8 + 4) * 8 + 0) * 8 + 0) * 8 + 0) * 8 + 0
    ensures MODE_REGULAR == ((((1 * 8 + 0) * 8 + 0) * 8 + 6) * 8 + 4) * 8 + 4
    ensures MODE_EXECUTABLE == ((((1 * 8 + 0) * 8 + 0) * 8 + 7) * 8 + 5) * 8 + 5
    ensures MODE_SYMLINK == ((((1 * 8 + 2) * 8 + 0) * 8 + 0) * 8 + 0) * 8 + 0
    ensures MODE_GITLINK == ((((1 * 8 + 6) * 8 + 0) * 8 + 0) * 8 + 0) * 8 + 0
  {
  }
}
