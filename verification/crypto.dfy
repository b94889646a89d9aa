/**
 * The QCryptographicHash-backed engine: the algorithm tag chooses one of
 * five digests (MD5 when the tag names none of the others), and the digest
 * is printed as lower-case hex.  The digests themselves are a foreign
 * library and enter the model as a function parameter.
 */
module Crypto {
  import opened Strings
  import opened Hex
  import opened Files

  datatype Digest = Md4 | Md5 | Sha1 | Sha256 | Sha512

  /** The tag the program uses for each digest. */
  function Tag(d: Digest): string {
    match d
    case Md4 => "MD4"
    case Md5 => "MD5"
    case Sha1 => "SHA-1"
    case Sha256 => "SHA-256"
    case Sha512 => "SHA-512"
  }

  /**
   * The tag dispatch of `hashFile`: the four named tags select their digest,
   * every other text (lower-case spellings, "", "CRC32", "MD5") selects MD5.
   */
  function SelectDigest(tag: string): (d: Digest)
    ensures d != Md5 <==> (tag == "MD4" || tag == "SHA-1" || tag == "SHA-256" || tag == "SHA-512")
    ensures d != Md5 ==> Tag(d) == tag
  {
    if tag == "MD4" then Md4
    else if tag == "SHA-1" then Sha1
    else if tag == "SHA-256" then Sha256
    else if tag == "SHA-512" then Sha512
    else Md5
  }

  /** Every digest is reached from its own tag. */
  lemma SelectTag(d: Digest)
    ensures SelectDigest(Tag(d)) == d
  {}

  /**
   * Digest sizes in bytes: 128 bits for MD4 and MD5 (section 3.5 of RFC 1320
   * and of RFC 1321), 160, 256 and 512 bits for SHA-1, SHA-256 and SHA-512
   * (section 1 of FIPS 180-4).
   */
  function DigestLength(d: Digest): nat {
    match d
    case Md4 => 16
    case Md5 => 16
    case Sha1 => 20
    case Sha256 => 32
    case Sha512 => 64
  }

  /** The digest library, given the digest and the file's bytes. */
  type DigestFunction = (Digest, seq<byte>) -> seq<byte>

  /** A digest function that returns digests of the standard sizes. */
  ghost predicate StandardSizes(digest: DigestFunction) {
    forall d: Digest, m: seq<byte> :: |digest(d, m)| == DigestLength(d)
  }

  /**
   * `QtCryptoAlgorithms::hashFile`: the same error texts as the CRC engine
   * for a missing or unopenable file, otherwise the chosen digest of the
   * whole content as lower-case hex (no upper-casing here).
   */
  function HashFile(file: FileState, tag: string, digest: DigestFunction): (text: string)
    ensures file.Missing? ==> text == "ERROR: File not found."
    ensures file.Unopenable? ==> text == "ERROR: " + file.message
    ensures file.Readable? ==>
      (forall i :: 0 <= i < |text| ==> IsLowerHexDigit(text[i]))
      && BytesOfHex(text) == Some(digest(SelectDigest(tag), file.content))
  {
    match file
    case Missing => "ERROR: File not found."
    case Unopenable(message) => "ERROR: " + message
    case Readable(content) =>
      var bytes := digest(SelectDigest(tag), content);
      HexOfBytesRoundTrip(bytes);
      LowerHexOfBytes(bytes)
  }

  /** With a standard digest library the text has the digest's fixed length: 32, 32, 40, 64 or 128. */
  lemma HashLength(file: FileState, tag: string, digest: DigestFunction)
    requires StandardSizes(digest) && file.Readable?
    ensures |HashFile(file, tag, digest)| == 2 * DigestLength(SelectDigest(tag))
    ensures tag == "SHA-512" ==> |HashFile(file, tag, digest)| == 128
  {
    assert |digest(SelectDigest(tag), file.content)| == DigestLength(SelectDigest(tag));
  }

  /** A successful result is never mistaken for an error text. */
  lemma SuccessIsNotError(file: FileState, tag: string, digest: DigestFunction)
    requires file.Readable?
    ensures !StartsWith(HashFile(file, tag, digest), "ERROR: ")
  {
    var text := HashFile(file, tag, digest);
    if |text| >= 7 {
      assert !IsLowerHexDigit(text[0]) || text[0] != 'E';
    }
  }
}
