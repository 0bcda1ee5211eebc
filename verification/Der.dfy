/** Distinguished encoding of the values a PKCS7 message is made of, as functions. */
module Der {
  import opened Bytes

  const INTEGER: byte := 0x02
  const OCTET_STRING: byte := 0x04
  const NULL: byte := 0x05
  const OID: byte := 0x06
  const SEQUENCE: byte := 0x30
  const SET: byte := 0x31
  const CONTEXT: byte := 0xA0

  /** The shortest big-endian digits of `n`. */
  function BigEndian(n: nat): (b: bytes)
    ensures |b| > 0 && (n > 0 ==> b[0] != 0)
  {
    if n < 0x100 then [n as byte] else BigEndian(n / 0x100) + [(n % 0x100) as byte]
  }

  /** Definite length octets, short form below 128 and else the shortest long form (sections 8.1.3 and 10.1 of X.690). */
  function Length(n: nat): (b: bytes)
    ensures |b| > 0
  {
    if n < 0x80 then [n as byte]
    else
      var digits := BigEndian(n);
      [((0x80 + |digits|) % 0x100) as byte] + digits
  }

  function Tlv(tag: byte, content: bytes): (b: bytes)
    ensures |b| >= 2 + |content| && b[0] == tag
  {
    [tag] + Length(|content|) + content
  }

  lemma TlvIsLonger(tag: byte, content: bytes)
    ensures |content| < |Tlv(tag, content)|
  {
  }

  /** Up to four digits, written out. */
  lemma BigEndianDigits(n: nat)
    requires n < U32_LIMIT
    ensures n <= 0xFF ==> BigEndian(n) == [n as byte]
    ensures 0xFF < n <= 0xFFFF ==> BigEndian(n) == [(n / 0x100) as byte, (n % 0x100) as byte]
    ensures 0xFFFF < n <= 0xFF_FFFF ==>
              BigEndian(n) == [(n / 0x1_0000) as byte, (n / 0x100 % 0x100) as byte, (n % 0x100) as byte]
    ensures 0xFF_FFFF < n ==>
              BigEndian(n) == [(n / 0x100_0000) as byte, (n / 0x1_0000 % 0x100) as byte, (n / 0x100 % 0x100) as byte, (n % 0x100) as byte]
  {
    var a := n / 0x100;
    var b := a / 0x100;
    var c := b / 0x100;
    assert b == n / 0x1_0000 && c == n / 0x100_0000;
    if n > 0xFF {
      assert BigEndian(n) == BigEndian(a) + [(n % 0x100) as byte];
      if a > 0xFF {
        assert BigEndian(a) == BigEndian(b) + [(a % 0x100) as byte];
        if b > 0xFF {
          assert BigEndian(b) == BigEndian(c) + [(b % 0x100) as byte];
          assert c <= 0xFF;
        }
      }
    }
  }

  /** The length octets of sizes below 4 GiB, written out. */
  lemma LengthDigits(n: nat)
    requires n < U32_LIMIT
    ensures n < 0x80 ==> Length(n) == [n as byte]
    ensures 0x80 <= n <= 0xFF ==> Length(n) == [0x81, n as byte]
    ensures 0xFF < n <= 0xFFFF ==> Length(n) == [0x82, (n / 0x100) as byte, (n % 0x100) as byte]
    ensures 0xFFFF < n <= 0xFF_FFFF ==>
              Length(n) == [0x83, (n / 0x1_0000) as byte, (n / 0x100 % 0x100) as byte, (n % 0x100) as byte]
    ensures 0xFF_FFFF < n ==>
              Length(n) == [0x84, (n / 0x100_0000) as byte, (n / 0x1_0000 % 0x100) as byte, (n / 0x100 % 0x100) as byte, (n % 0x100) as byte]
  {
    BigEndianDigits(n);
    hide BigEndian;
  }

  // ---------- the parts of a PKCS7 message ----------

  const PKCS7_DATA: bytes := [0x2a, 0x86, 0x48, 0x86, 0xf7, 0x0d, 0x01, 0x07, 0x01]
  const PKCS7_SIGNED_DATA: bytes := [0x2a, 0x86, 0x48, 0x86, 0xf7, 0x0d, 0x01, 0x07, 0x02]
  const PKCS1_RSA: bytes := [0x2a, 0x86, 0x48, 0x86, 0xf7, 0x0d, 0x01, 0x01, 0x01]
  const NULL_PARAMETERS: bytes := [NULL, 0x00]

  /** AlgorithmIdentifier with NULL parameters. */
  function AlgorithmId(oid: bytes): (r: bytes) {
    Tlv(SEQUENCE, Tlv(OID, oid) + NULL_PARAMETERS)
  }

  /** What the encoding of one signer is made of; `issuer` is already encoded. */
  datatype SignerPart = SignerPart(issuer: bytes, serial: bytes, sig: bytes)

  function AlgorithmsAndSignature(hashOid: bytes, sig: bytes): (r: bytes) {
    AlgorithmId(hashOid) + (AlgorithmId(PKCS1_RSA) + Tlv(OCTET_STRING, sig))
  }

  function IssuerAndSerial(s: SignerPart): (r: bytes) {
    Tlv(SEQUENCE, s.issuer + Tlv(INTEGER, s.serial))
  }

  function SignerBody(hashOid: bytes, s: SignerPart): (r: bytes) {
    Tlv(INTEGER, [1]) + (IssuerAndSerial(s) + AlgorithmsAndSignature(hashOid, s.sig))
  }

  /** SignerInfo (section 9.2 of RFC 2315). */
  function SignerInfo(hashOid: bytes, s: SignerPart): (r: bytes) {
    Tlv(SEQUENCE, SignerBody(hashOid, s))
  }

  /** The signers, last first. */
  function SignerInfos(hashOid: bytes, signers: seq<SignerPart>): (r: bytes) {
    if signers == [] then []
    else SignerInfo(hashOid, signers[|signers| - 1]) + SignerInfos(hashOid, signers[..|signers| - 1])
  }

  /** The certificates, last first. */
  function Certificates(certs: seq<bytes>): (r: bytes) {
    if certs == [] then [] else certs[|certs| - 1] + Certificates(certs[..|certs| - 1])
  }

  // the parts of the signed data, each with all that follows it

  function FromSigners(hashOid: bytes, signers: seq<SignerPart>): (r: bytes) {
    Tlv(SET, SignerInfos(hashOid, signers))
  }

  function FromCertificates(hashOid: bytes, certs: seq<bytes>, signers: seq<SignerPart>): (r: bytes) {
    Tlv(CONTEXT, Certificates(certs)) + FromSigners(hashOid, signers)
  }

  function FromContentInfo(hashOid: bytes, certs: seq<bytes>, signers: seq<SignerPart>): (r: bytes) {
    Tlv(SEQUENCE, Tlv(OID, PKCS7_DATA)) + FromCertificates(hashOid, certs, signers)
  }

  function FromAlgorithms(hashOid: bytes, certs: seq<bytes>, signers: seq<SignerPart>): (r: bytes) {
    Tlv(SET, AlgorithmId(hashOid)) + FromContentInfo(hashOid, certs, signers)
  }

  function FromVersion(hashOid: bytes, certs: seq<bytes>, signers: seq<SignerPart>): (r: bytes) {
    Tlv(INTEGER, [1]) + FromAlgorithms(hashOid, certs, signers)
  }

  /** SignedData (section 9.1 of RFC 2315), version 1, with no content and one digest algorithm. */
  function SignedDataDer(hashOid: bytes, certs: seq<bytes>, signers: seq<SignerPart>): (r: bytes) {
    Tlv(SEQUENCE, FromVersion(hashOid, certs, signers))
  }

  /** ContentInfo (section 7 of RFC 2315) around some signed data. */
  function Envelope(data: bytes): (r: bytes) {
    Tlv(SEQUENCE, Tlv(OID, PKCS7_SIGNED_DATA) + Tlv(CONTEXT, data))
  }

  function ContentInfo(hashOid: bytes, certs: seq<bytes>, signers: seq<SignerPart>): (r: bytes) {
    Envelope(SignedDataDer(hashOid, certs, signers))
  }

  // ---------- worked examples ----------

  /** A signer with an empty issuer, serial number 7, signature aa, and the digest algorithm 2.5 in one byte. */
  const EXAMPLE_SIGNER := SignerPart([0x30, 0x00], [0x07], [0xaa])

  lemma ShortTlv(tag: byte, content: bytes)
    requires |content| < 0x80
    ensures Tlv(tag, content) == [tag, |content| as byte] + content
  {
  }

  lemma AlgorithmExamples()
    ensures AlgorithmId([0x55]) == [0x30, 0x05, 0x06, 0x01, 0x55, 0x05, 0x00]
    ensures AlgorithmId(PKCS1_RSA) == [0x30, 0x0d, 0x06, 0x09, 0x2a, 0x86, 0x48, 0x86, 0xf7, 0x0d, 0x01, 0x01, 0x01, 0x05, 0x00]
  {
    var x: bytes := [0x55];
    ShortTlv(OID, x);
    ShortTlv(OID, PKCS1_RSA);
    ShortTlv(SEQUENCE, Tlv(OID, x) + NULL_PARAMETERS);
    ShortTlv(SEQUENCE, Tlv(OID, PKCS1_RSA) + NULL_PARAMETERS);
    hide Tlv;
  }

  /** The encoding of that signer, part by part. */
  lemma SignerExample()
    ensures SignerInfo([0x55], EXAMPLE_SIGNER) ==
              [0x30, 0x23]
              + ([0x02, 0x01, 0x01]
                 + (([0x30, 0x05] + ([0x30, 0x00] + [0x02, 0x01, 0x07]))
                    + ([0x30, 0x05, 0x06, 0x01, 0x55, 0x05, 0x00]
                       + ([0x30, 0x0d, 0x06, 0x09, 0x2a, 0x86, 0x48, 0x86, 0xf7, 0x0d, 0x01, 0x01, 0x01, 0x05, 0x00]
                          + [0x04, 0x01, 0xaa]))))
  {
    AlgorithmExamples();
    SmallTlv(INTEGER, 0x01);
    SmallTlv(INTEGER, 0x07);
    SmallTlv(OCTET_STRING, 0xaa);
    hide Tlv;
    hide AlgorithmId;
    var id := EXAMPLE_SIGNER.issuer + Tlv(INTEGER, EXAMPLE_SIGNER.serial);
    assert |id| == 5;
    ShortTlv(SEQUENCE, id);
    var body := SignerBody([0x55], EXAMPLE_SIGNER);
    assert |body| == 0x23;
    ShortTlv(SEQUENCE, body);
  }

  lemma SmallTlv(tag: byte, x: byte)
    ensures Tlv(tag, [x]) == [tag, 0x01, x]
  {
  }

  /** The encoding of a whole message with that signer and one (empty) certificate, part by part. */
  lemma MessageExample()
    ensures ContentInfo([0x55], [[0x30, 0x00]], [EXAMPLE_SIGNER]) ==
              [0x30, 0x53]
              + ([0x06, 0x09, 0x2a, 0x86, 0x48, 0x86, 0xf7, 0x0d, 0x01, 0x07, 0x02]
                 + ([0xa0, 0x46]
                    + ([0x30, 0x44]
                       + ([0x02, 0x01, 0x01]
                          + (([0x31, 0x07] + [0x30, 0x05, 0x06, 0x01, 0x55, 0x05, 0x00])
                             + (([0x30, 0x0b] + [0x06, 0x09, 0x2a, 0x86, 0x48, 0x86, 0xf7, 0x0d, 0x01, 0x07, 0x01])
                                + (([0xa0, 0x02] + [0x30, 0x00])
                                   + ([0x31, 0x25] + SignerInfo([0x55], EXAMPLE_SIGNER)))))))))
  {
    AlgorithmExamples();
    SignerExample();
    OneSigner([0x55], EXAMPLE_SIGNER);
    OneCertificate([0x30, 0x00]);
    SmallTlv(INTEGER, 0x01);
    IdentifierExamples();
    hide Tlv;
    hide AlgorithmId;
    hide SignerInfo;
    hide SignerInfos;
    hide Certificates;
    var certs: seq<bytes>, signers, alg := [[0x30, 0x00]], [EXAMPLE_SIGNER], AlgorithmId([0x55]);
    ShortTlv(SET, alg);
    ShortTlv(SEQUENCE, Tlv(OID, PKCS7_DATA));
    ShortTlv(CONTEXT, Certificates(certs));
    ShortTlv(SET, SignerInfos([0x55], signers));
    var data := FromVersion([0x55], certs, signers);
    assert |data| == 0x44;
    hide FromVersion;
    ShortTlv(SEQUENCE, data);
    ShortTlv(CONTEXT, Tlv(SEQUENCE, data));
    ShortTlv(SEQUENCE, Tlv(OID, PKCS7_SIGNED_DATA) + Tlv(CONTEXT, Tlv(SEQUENCE, data)));
  }

  lemma IdentifierExamples()
    ensures Tlv(OID, PKCS7_DATA) == [0x06, 0x09, 0x2a, 0x86, 0x48, 0x86, 0xf7, 0x0d, 0x01, 0x07, 0x01]
    ensures Tlv(OID, PKCS7_SIGNED_DATA) == [0x06, 0x09, 0x2a, 0x86, 0x48, 0x86, 0xf7, 0x0d, 0x01, 0x07, 0x02]
  {
    ShortTlv(OID, PKCS7_DATA);
    ShortTlv(OID, PKCS7_SIGNED_DATA);
    hide Tlv;
  }

  lemma OneSigner(hashOid: bytes, s: SignerPart)
    ensures SignerInfos(hashOid, [s]) == SignerInfo(hashOid, s)
  {
    hide SignerInfo;
    assert [s][..0] == [];
    assert SignerInfos(hashOid, [s]) == SignerInfo(hashOid, s) + SignerInfos(hashOid, []);
  }

  lemma OneCertificate(cert: bytes)
    ensures Certificates([cert]) == cert
  {
    assert [cert][..0] == [];
    assert Certificates([cert]) == cert + Certificates([]);
  }
}
