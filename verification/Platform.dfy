/**
 * Everything the repository calls but does not contain, as one parameter of the model: nothing is assumed
 * about its fields unless a lemma asks for it.
 */
module Platform {
  import opened Bytes

  /** One SignerInfo of a parsed PKCS7 message. */
  datatype Signer = Signer(version: int, issuer: bytes, serial: bytes, digestAlg: bytes, sigAlg: bytes, sig: bytes)

  /** A parsed PKCS7 SignedData; `certs` are the certificates' encodings. */
  datatype SignedData = SignedData(version: int, digestAlg: bytes, certs: seq<bytes>, signers: seq<Signer>)

  datatype Platform = Platform(
    /** the bytes parse as an X.509 certificate that can be described */
    certOk: bytes -> bool,
    /** `crypto_pkcs7_parse_der`, None also when the first certificate cannot be described */
    pkcs7: bytes -> Option<SignedData>,
    /** `crypto_pkcs7_signed_hash_verify` of a message against a certificate and a digest */
    verify: (SignedData, bytes, bytes) -> int,
    /** SHA-256 */
    hash: bytes -> bytes,
    /** `validatePKCS7` and `validateCert` (of a certificate for a variable name) */
    validatePkcs7: bytes -> int,
    validateCert: (bytes, bytes) -> int,
    /** the byte a read finds at an index past the end of a buffer */
    beyond: (bytes, nat) -> byte)
  {
    /** `memcpy` of `n` bytes out of `buf` from `at`, which the C code does not always bound. */
    function Copy(buf: bytes, at: nat, n: nat): (c: bytes)
      ensures |c| == n
      ensures at + n <= |buf| ==> c == buf[at..at + n]
    {
      seq(n, i requires 0 <= i < n => if at + i < |buf| then buf[at + i] else beyond(buf, at + i))
    }
  }

  /** `memcpy` of `src` into `dst` at `at`. */
  method Memcpy(dst: array<byte>, at: nat, src: bytes)
    requires at + |src| <= dst.Length
    modifies dst
    ensures dst[..] == old(dst[..at]) + src + old(dst[at + |src|..])
  {
    forall i | 0 <= i < |src| {
      dst[at + i] := src[i];
    }
  }
}
