/** What the parser makes of a message in the generator's encoding. */
module Pkcs7RoundTrip {
  import opened Bytes
  import opened Platform
  import opened Der
  import opened Pkcs7Parser

  lemma HasSlice(b: bytes, at: nat, part: bytes)
    requires Has(b, at, part)
    ensures at + |part| <= |b| && b[at..at + |part|] == part
  {
  }

  /** Three parts, one after the other. */
  lemma HasThree(b: bytes, at: nat, x: bytes, y: bytes, z: bytes)
    requires Has(b, at, x + (y + z))
    ensures Has(b, at, x) && Has(b, at + |x|, y) && Has(b, at + |x| + |y|, z)
  {
    HasSplit(b, at, x, y + z);
    HasSplit(b, at + |x|, y, z);
  }

  // ---------- single values ----------

  /** Four digits and fewer are read back. */
  lemma {:induction false} DigitsReadBack(n: nat)
    ensures FromBigEndian(BigEndian(n)) == n
  {
    var b := BigEndian(n);
    if n < 0x100 {
      assert b[..0] == [];
    } else {
      DigitsReadBack(n / 0x100);
      assert b[..|b| - 1] == BigEndian(n / 0x100);
    }
  }

  lemma HasByte(b: bytes, at: nat, x: byte)
    requires Has(b, at, [x])
    ensures at < |b| && b[at] == x
  {
    assert b[at..at + 1][0] == b[at];
  }

  lemma HasByteThen(b: bytes, at: nat, x: byte, rest: bytes)
    requires Has(b, at, [x] + rest)
    ensures at + 1 + |rest| <= |b| && b[at] == x && b[at + 1..at + 1 + |rest|] == rest
  {
    HasSplit(b, at, [x], rest);
    HasByte(b, at, x);
  }

  lemma LongFormReadsBack(buf: bytes, p: nat, end: nat, digits: bytes, k: nat, n: nat)
    requires end <= |buf| && 1 <= k <= 4 && p + 1 + k + n <= end
    requires buf[p] as int == 0x80 + k && buf[p + 1..p + 1 + k] == digits && FromBigEndian(digits) == n
    ensures GetLen(buf, p, end) == Ok(n, p + 1 + k)
  {
    hide FromBigEndian;
  }

  /** The long form, taken apart. */
  lemma LongForm(n: nat) returns (digits: bytes)
    requires 0x80 <= n < U32_LIMIT
    ensures 1 <= |digits| <= 4 && Length(n) == [(0x80 + |digits|) as byte] + digits && FromBigEndian(digits) == n
  {
    digits := BigEndian(n);
    assert |digits| <= 4 by { BigEndianDigits(n); }
    DigitsReadBack(n);
    hide BigEndian;
    hide FromBigEndian;
  }

  lemma LongLengthReadsBack(buf: bytes, p: nat, end: nat, n: nat, digits: bytes)
    requires end <= |buf| && 1 <= |digits| <= 4 && FromBigEndian(digits) == n && p + 1 + |digits| + n <= end
    requires Has(buf, p, [(0x80 + |digits|) as byte] + digits)
    ensures GetLen(buf, p, end) == Ok(n, p + 1 + |digits|)
  {
    hide *;
    HasByteThen(buf, p, (0x80 + |digits|) as byte, digits);
    LongFormReadsBack(buf, p, end, digits, |digits|, n);
  }

  lemma ShortLengthReadsBack(buf: bytes, p: nat, end: nat, n: nat)
    requires end <= |buf| && n < 0x80 && Has(buf, p, [n as byte]) && p + 1 + n <= end
    ensures GetLen(buf, p, end) == Ok(n, p + 1)
  {
    HasByte(buf, p, n as byte);
    hide Has;
  }

  lemma LengthReadsBack(buf: bytes, p: nat, end: nat, n: nat)
    requires end <= |buf| && n < U32_LIMIT && Has(buf, p, Length(n))
    requires p + |Length(n)| + n <= end
    ensures GetLen(buf, p, end) == Ok(n, p + |Length(n)|)
  {
    if n < 0x80 {
      assert Length(n) == [n as byte];
      hide Length;
      hide Has;
      hide GetLen;
      ShortLengthReadsBack(buf, p, end, n);
    } else {
      hide Length;
      hide Has;
      hide GetLen;
      hide FromBigEndian;
      var digits := LongForm(n);
      LongLengthReadsBack(buf, p, end, n, digits);
    }
  }

  lemma TlvSplits(buf: bytes, p: nat, tag: byte, content: bytes) returns (at: nat)
    requires Has(buf, p, Tlv(tag, content))
    ensures p < |buf| && buf[p] == tag && Has(buf, p + 1, Length(|content|)) && at == p + 1 + |Length(|content|)|
    ensures Has(buf, at, content) && at + |content| == p + |Tlv(tag, content)|
  {
    at := p + 1 + |Length(|content|)|;
    HasSplit(buf, p, [tag] + Length(|content|), content);
    HasSplit(buf, p, [tag], Length(|content|));
    HasByte(buf, p, tag);
  }

  /** The header of a value that lies in the buffer is read, and its content is where the cursor is left. */
  lemma TlvReadsBack(buf: bytes, p: nat, end: nat, tag: byte, content: bytes) returns (at: nat)
    requires end <= |buf| && Has(buf, p, Tlv(tag, content)) && p + |Tlv(tag, content)| <= end
    requires |content| < U32_LIMIT
    ensures p + 2 <= at && at + |content| == p + |Tlv(tag, content)|
    ensures GetTag(buf, p, end, tag) == Ok(|content|, at)
    ensures GetLen(buf, p + 1, end) == Ok(|content|, at) && buf[p] == tag
    ensures Has(buf, at, content) && buf[at..at + |content|] == content
  {
    hide Tlv;
    hide Length;
    hide Has;
    hide GetLen;
    at := TlvSplits(buf, p, tag, content);
    LengthReadsBack(buf, p + 1, end, |content|);
    HasSlice(buf, at, content);
  }

  /** A value of two parts, one after the other in its content. */
  lemma PairReadsBack(buf: bytes, p: nat, end: nat, tag: byte, x: bytes, y: bytes) returns (at: nat)
    requires end <= |buf| && Has(buf, p, Tlv(tag, x + y)) && p + |Tlv(tag, x + y)| <= end
    requires |Tlv(tag, x + y)| < U32_LIMIT
    ensures p + 2 <= at && at + |x| + |y| == p + |Tlv(tag, x + y)|
    ensures GetTag(buf, p, end, tag) == Ok(|x| + |y|, at)
    ensures Has(buf, at, x) && Has(buf, at + |x|, y)
  {
    TlvIsLonger(tag, x + y);
    hide *;
    at := TlvReadsBack(buf, p, end, tag, x + y);
    HasSplit(buf, at, x, y);
  }

  lemma NullParametersReadBack(buf: bytes, p: nat, end: nat)
    requires end <= |buf| && Has(buf, p, NULL_PARAMETERS) && p + 2 <= end
    ensures buf[p] == NULL && GetLen(buf, p + 1, end) == Ok(0, p + 2)
  {
    assert buf[p..p + 2][0] == buf[p] && buf[p..p + 2][1] == buf[p + 1];
  }

  lemma AlgorithmReadsBack(buf: bytes, p: nat, end: nat, oid: bytes)
    requires end <= |buf| && Has(buf, p, AlgorithmId(oid)) && p + |AlgorithmId(oid)| <= end
    requires |AlgorithmId(oid)| < U32_LIMIT
    ensures GetAlgNull(buf, p, end) == Ok(oid, p + |AlgorithmId(oid)|)
  {
    TlvIsLonger(OID, oid);
    hide Tlv;
    hide GetTag;
    hide GetLen;
    hide Has;
    var at := PairReadsBack(buf, p, end, SEQUENCE, Tlv(OID, oid), NULL_PARAMETERS);
    var last := p + |AlgorithmId(oid)|;
    var q := at + |Tlv(OID, oid)|;
    assert q + 2 == last;
    var start := TlvReadsBack(buf, at, last, OID, oid);
    NullParametersReadBack(buf, q, last);
  }

  lemma SmallNumberReadsBack(buf: bytes, p: nat, end: nat, v: byte)
    requires v < 0x80 && end <= |buf| && Has(buf, p, Tlv(INTEGER, [v])) && p + |Tlv(INTEGER, [v])| <= end
    ensures GetInt(buf, p, end) == Ok(v as int, p + |Tlv(INTEGER, [v])|)
  {
    var at := TlvReadsBack(buf, p, end, INTEGER, [v]);
    hide Tlv;
    hide GetTag;
    var one: bytes := [v];
    assert one[..0] == [];
    assert FromBigEndian(one) == v as int;
  }

  lemma VersionReadsBack(buf: bytes, p: nat, end: nat)
    requires end <= |buf| && Has(buf, p, Tlv(INTEGER, [1])) && p + |Tlv(INTEGER, [1])| <= end
    ensures GetInt(buf, p, end) == Ok(1, p + |Tlv(INTEGER, [1])|)
  {
    hide *;
    SmallNumberReadsBack(buf, p, end, 1);
  }

  // ---------- signers ----------

  /** The library accepts the issuer: the encoding of a name it can read. */
  predicate Readable(lib: Library, s: SignerPart, name: bytes) {
    s.issuer == Tlv(SEQUENCE, name) && lib.name(name) == 0
  }

  ghost predicate HasReadableIssuer(lib: Library, s: SignerPart) {
    exists name :: Readable(lib, s, name)
  }

  lemma SerialReadsBack(buf: bytes, p: nat, end: nat, serial: bytes)
    requires end <= |buf| && Has(buf, p, Tlv(INTEGER, serial)) && p + |Tlv(INTEGER, serial)| <= end
    requires |serial| < U32_LIMIT
    ensures GetSerial(buf, p, end) == Ok(serial, p + |Tlv(INTEGER, serial)|)
  {
    hide Tlv;
    hide GetLen;
    var at := TlvReadsBack(buf, p, end, INTEGER, serial);
  }

  lemma IssuerAndSerialReadBack(lib: Library, buf: bytes, p: nat, end: nat, s: SignerPart, name: bytes)
    requires Readable(lib, s, name)
    requires end <= |buf| < U32_LIMIT && Has(buf, p, IssuerAndSerial(s)) && p + |IssuerAndSerial(s)| <= end
    ensures GetIssuerAndSerial(lib, buf, p, end) == Ok((s.issuer, s.serial), p + |IssuerAndSerial(s)|)
  {
    TlvIsLonger(SEQUENCE, name);
    TlvIsLonger(INTEGER, s.serial);
    hide Tlv;
    hide GetTag;
    hide GetSerial;
    hide Has;
    var at := PairReadsBack(buf, p, end, SEQUENCE, s.issuer, Tlv(INTEGER, s.serial));
    var start := TlvReadsBack(buf, at, end, SEQUENCE, name);
    var q := at + |s.issuer|;
    assert q == start + |name|;
    SerialReadsBack(buf, q, end, s.serial);
    HasSlice(buf, at, s.issuer);
  }

  /** What is read back of a signer. */
  function SignerOf(hashOid: bytes, s: SignerPart): (r: Signer) {
    Signer(1, s.issuer, s.serial, hashOid, PKCS1_RSA, s.sig)
  }

  lemma AlgorithmsSplit(buf: bytes, p: nat, hashOid: bytes, sig: bytes) returns (p1: nat, p2: nat)
    requires Has(buf, p, AlgorithmsAndSignature(hashOid, sig))
    ensures Has(buf, p, AlgorithmId(hashOid)) && p1 == p + |AlgorithmId(hashOid)|
    ensures Has(buf, p1, AlgorithmId(PKCS1_RSA)) && p2 == p1 + |AlgorithmId(PKCS1_RSA)|
    ensures Has(buf, p2, Tlv(OCTET_STRING, sig)) && p2 + |Tlv(OCTET_STRING, sig)| == p + |AlgorithmsAndSignature(hashOid, sig)|
  {
    var alg, rsa, tlv := AlgorithmId(hashOid), AlgorithmId(PKCS1_RSA), Tlv(OCTET_STRING, sig);
    assert AlgorithmsAndSignature(hashOid, sig) == alg + (rsa + tlv);
    hide *;
    HasThree(buf, p, alg, rsa, tlv);
    p1 := p + |alg|;
    p2 := p1 + |rsa|;
  }

  lemma AlgorithmsAndSignatureReadBack(buf: bytes, p: nat, end: nat, hashOid: bytes, sig: bytes)
    requires end <= |buf| < U32_LIMIT
    requires Has(buf, p, AlgorithmsAndSignature(hashOid, sig)) && end == p + |AlgorithmsAndSignature(hashOid, sig)|
    ensures var r := GetAlgorithmsAndSignature(buf, p, end); r.Ok? && r.value == (hashOid, PKCS1_RSA, sig)
  {
    TlvIsLonger(OCTET_STRING, sig);
    hide Tlv;
    hide AlgorithmId;
    hide AlgorithmsAndSignature;
    hide GetTag;
    hide GetAlgNull;
    hide Has;
    var p1, p2 := AlgorithmsSplit(buf, p, hashOid, sig);
    AlgorithmReadsBack(buf, p, end, hashOid);
    AlgorithmReadsBack(buf, p1, end, PKCS1_RSA);
    var at := TlvReadsBack(buf, p2, end, OCTET_STRING, sig);
  }

  lemma SignerSplits(buf: bytes, p: nat, end: nat, hashOid: bytes, s: SignerPart) returns (at: nat, p1: nat, p2: nat)
    requires end <= |buf| && Has(buf, p, SignerInfo(hashOid, s)) && p + |SignerInfo(hashOid, s)| <= end
    requires |SignerInfo(hashOid, s)| < U32_LIMIT
    ensures var last := p + |SignerInfo(hashOid, s)|;
            && p + 2 <= at && GetTag(buf, p, end, SEQUENCE) == Ok(last - at, at)
            && Has(buf, at, Tlv(INTEGER, [1])) && p1 == at + |Tlv(INTEGER, [1])|
            && Has(buf, p1, IssuerAndSerial(s)) && p2 == p1 + |IssuerAndSerial(s)|
            && Has(buf, p2, AlgorithmsAndSignature(hashOid, s.sig)) && last == p2 + |AlgorithmsAndSignature(hashOid, s.sig)|
  {
    var version, id, rest := Tlv(INTEGER, [1]), IssuerAndSerial(s), AlgorithmsAndSignature(hashOid, s.sig);
    assert SignerInfo(hashOid, s) == Tlv(SEQUENCE, version + (id + rest));
    hide *;
    at := PairReadsBack(buf, p, end, SEQUENCE, version, id + rest);
    p1 := at + |version|;
    HasSplit(buf, p1, id, rest);
    p2 := p1 + |id|;
  }

  lemma SignerReadsBack(lib: Library, buf: bytes, p: nat, end: nat, hashOid: bytes, s: SignerPart, name: bytes)
    requires Readable(lib, s, name) && |buf| < U32_LIMIT
    requires end <= |buf| && Has(buf, p, SignerInfo(hashOid, s)) && p + |SignerInfo(hashOid, s)| <= end
    ensures GetSignerInfo(lib, buf, p, end) == Ok(SignerOf(hashOid, s), p + |SignerInfo(hashOid, s)|)
  {
    hide Tlv;
    hide IssuerAndSerial;
    hide AlgorithmsAndSignature;
    hide SignerInfo;
    hide Readable;
    hide GetTag;
    hide GetInt;
    hide GetIssuerAndSerial;
    hide GetAlgorithmsAndSignature;
    hide Has;
    var last := p + |SignerInfo(hashOid, s)|;
    var at, p1, p2 := SignerSplits(buf, p, end, hashOid, s);
    VersionReadsBack(buf, at, last);
    IssuerAndSerialReadBack(lib, buf, p1, last, s, name);
    AlgorithmsAndSignatureReadBack(buf, p2, last, hashOid, s.sig);
  }

  /** In the order they were written: last first. */
  function SignersOf(hashOid: bytes, signers: seq<SignerPart>): (r: seq<Signer>)
    ensures |r| == |signers|
    ensures forall i | 0 <= i < |signers| :: r[i] == SignerOf(hashOid, signers[|signers| - 1 - i])
  {
    if signers == [] then []
    else [SignerOf(hashOid, signers[|signers| - 1])] + SignersOf(hashOid, signers[..|signers| - 1])
  }

  /** The signers are read one after the other and the last one ends exactly at the end of the set. */
  lemma {:induction false} SignersReadBack(lib: Library, buf: bytes, p: nat, end: nat, hashOid: bytes, signers: seq<SignerPart>)
    requires |buf| < U32_LIMIT && forall s | s in signers :: HasReadableIssuer(lib, s)
    requires end <= |buf| && Has(buf, p, SignerInfos(hashOid, signers)) && p + |SignerInfos(hashOid, signers)| == end
    ensures SignersIn(lib, buf, p, end) == Ok(SignersOf(hashOid, signers), end)
    decreases |signers|
  {
    hide SignerInfo;
    hide GetSignerInfo;
    hide Has;
    if signers != [] {
      var last, rest := signers[|signers| - 1], signers[..|signers| - 1];
      assert HasReadableIssuer(lib, last);
      var name :| Readable(lib, last, name);
      HasSplit(buf, p, SignerInfo(hashOid, last), SignerInfos(hashOid, rest));
      SignerReadsBack(lib, buf, p, end, hashOid, last, name);
      SignersReadBack(lib, buf, p + |SignerInfo(hashOid, last)|, end, hashOid, rest);
    }
  }

  // ---------- certificates ----------

  /** The library finds the end of the certificate, whatever follows it. */
  ghost predicate SelfDelimiting(lib: Library, cert: bytes) {
    cert != [] && forall rest :: lib.crt(cert + rest) == Crt(cert)
  }

  function Mirror<T>(s: seq<T>): (r: seq<T>)
    ensures |r| == |s| && forall i | 0 <= i < |s| :: r[i] == s[|s| - 1 - i]
  {
    if s == [] then [] else [s[|s| - 1]] + Mirror(s[..|s| - 1])
  }

  /** The certificates are read one after the other and the last one ends exactly at the end of the buffer. */
  lemma {:induction false} CertificatesReadBack(lib: Library, certs: seq<bytes>)
    requires Lawful(lib) && certs != [] && forall c | c in certs :: SelfDelimiting(lib, c)
    ensures CertificatesIn(lib, Certificates(certs)) == Chain(Mirror(certs))
  {
    var last, rest := certs[|certs| - 1], certs[..|certs| - 1];
    var b := Certificates(certs);
    assert last in certs && SelfDelimiting(lib, last);
    assert b == last + Certificates(rest);
    assert b[|last|..] == Certificates(rest);
    if rest == [] {
      assert Mirror(certs) == [last];
    } else {
      assert rest[|rest| - 1] in certs && |Certificates(rest)| >= |rest[|rest| - 1]| > 0;
      CertificatesReadBack(lib, rest);
    }
  }

  // ---------- the message ----------

  /** What is read back of a whole message. */
  function DataOf(hashOid: bytes, certs: seq<bytes>, signers: seq<SignerPart>): (r: SignedData) {
    SignedData(1, hashOid, Mirror(certs), SignersOf(hashOid, signers))
  }

  lemma ContentTypeReadsBack(buf: bytes, p: nat, end: nat, oid: bytes, rest: bytes) returns (at: nat)
    requires var content := Tlv(OID, oid) + rest;
             end <= |buf| && Has(buf, p, Tlv(SEQUENCE, content)) && p + |Tlv(SEQUENCE, content)| <= end
             && |Tlv(SEQUENCE, content)| < U32_LIMIT
    ensures GetContentInfoType(buf, p, end) == Ok(oid, at)
    ensures Has(buf, at + |oid|, rest) && at + |oid| + |rest| == p + |Tlv(SEQUENCE, Tlv(OID, oid) + rest)|
  {
    TlvIsLonger(OID, oid);
    hide Tlv;
    hide GetTag;
    hide Has;
    var start := PairReadsBack(buf, p, end, SEQUENCE, Tlv(OID, oid), rest);
    at := TlvReadsBack(buf, start, end, OID, oid);
    assert at + |oid| == start + |Tlv(OID, oid)|;
  }

  /** The content type of a value without content. */
  lemma NoContentReadsBack(buf: bytes, p: nat, end: nat, oid: bytes) returns (at: nat)
    requires end <= |buf| < U32_LIMIT && Has(buf, p, Tlv(SEQUENCE, Tlv(OID, oid))) && p + |Tlv(SEQUENCE, Tlv(OID, oid))| <= end
    ensures GetContentInfoType(buf, p, end) == Ok(oid, at) && at + |oid| == p + |Tlv(SEQUENCE, Tlv(OID, oid))|
  {
    assert Tlv(OID, oid) + [] == Tlv(OID, oid);
    hide *;
    at := ContentTypeReadsBack(buf, p, end, oid, []);
  }

  lemma DigestAlgorithmReadsBack(buf: bytes, p: nat, end: nat, hashOid: bytes)
    requires |buf| < U32_LIMIT && end <= |buf|
    requires Has(buf, p, Tlv(SET, AlgorithmId(hashOid))) && p + |Tlv(SET, AlgorithmId(hashOid))| <= end
    ensures GetDigestAlgorithmSet(buf, p, end) == Ok(hashOid, p + |Tlv(SET, AlgorithmId(hashOid))|)
  {
    TlvIsLonger(SET, AlgorithmId(hashOid));
    hide Tlv;
    hide AlgorithmId;
    hide Has;
    hide GetTag;
    hide GetAlgNull;
    var q := TlvReadsBack(buf, p, end, SET, AlgorithmId(hashOid));
    var last := q + |AlgorithmId(hashOid)|;
    assert last == p + |Tlv(SET, AlgorithmId(hashOid))|;
    AlgorithmReadsBack(buf, q, last, hashOid);
  }

  /** Signed data of version 1 with any content type and anything behind it. */
  function SignedDataWith(hashOid: bytes, oid: bytes, rest: bytes): (r: bytes) {
    Tlv(SEQUENCE, Tlv(INTEGER, [1]) + (Tlv(SET, AlgorithmId(hashOid)) + (Tlv(SEQUENCE, Tlv(OID, oid)) + rest)))
  }

  lemma ThreeReadBack(buf: bytes, p: nat, end: nat, x: bytes, y: bytes, z: bytes, rest: bytes) returns (at: nat, p1: nat, p2: nat)
    requires end <= |buf| < U32_LIMIT
    requires Has(buf, p, Tlv(SEQUENCE, x + (y + (z + rest)))) && p + |Tlv(SEQUENCE, x + (y + (z + rest)))| == end
    ensures GetTag(buf, p, end, SEQUENCE) == Ok(end - at, at) && at <= end
    ensures Has(buf, at, x) && p1 == at + |x| && Has(buf, p1, y) && p2 == p1 + |y| && Has(buf, p2, z)
    ensures Has(buf, p2 + |z|, rest) && p2 + |z| + |rest| == end
  {
    hide Tlv;
    hide Has;
    hide GetTag;
    at := PairReadsBack(buf, p, end, SEQUENCE, x, y + (z + rest));
    p1 := at + |x|;
    HasThree(buf, p1, y, z, rest);
    p2 := p1 + |y|;
  }

  /** The verdict on the header of signed data of version 1, and where the rest starts if it passes. */
  lemma HeaderReadsBack(lib: Library, buf: bytes, p: nat, end: nat, hashOid: bytes, oid: bytes, rest: bytes) returns (at: nat)
    requires end <= |buf| < U32_LIMIT && Has(buf, p, SignedDataWith(hashOid, oid, rest))
    requires p + |SignedDataWith(hashOid, oid, rest)| == end
    ensures Has(buf, at, rest) && at + |rest| == end
    ensures var r := GetSignedDataHeader(lib, buf, p, end);
            if lib.mdAlg(hashOid) == 0 && oid == PKCS7_DATA then r == Ok(hashOid, at)
            else r.Err? && r.rc == if lib.mdAlg(hashOid) != 0 then INVALID_ALG + lib.mdAlg(hashOid) else INVALID_CONTENT_INFO
  {
    hide Tlv;
    hide AlgorithmId;
    hide Has;
    hide GetTag;
    hide GetSignedDataHeader;
    var content := Tlv(SEQUENCE, Tlv(OID, oid));
    var start, p1, p2 := ThreeReadBack(buf, p, end, Tlv(INTEGER, [1]), Tlv(SET, AlgorithmId(hashOid)), content, rest);
    hide SignedDataWith;
    at := p2 + |content|;
    HeaderParts(lib, buf, p, start, p1, p2, end, hashOid, oid);
  }

  lemma HeaderParts(lib: Library, buf: bytes, p: nat, at: nat, p1: nat, p2: nat, end: nat, hashOid: bytes, oid: bytes)
    requires p <= end <= |buf| < U32_LIMIT && at <= end && GetTag(buf, p, end, SEQUENCE) == Ok(end - at, at)
    requires Has(buf, at, Tlv(INTEGER, [1])) && p1 == at + |Tlv(INTEGER, [1])|
    requires Has(buf, p1, Tlv(SET, AlgorithmId(hashOid))) && p2 == p1 + |Tlv(SET, AlgorithmId(hashOid))|
    requires Has(buf, p2, Tlv(SEQUENCE, Tlv(OID, oid))) && p2 + |Tlv(SEQUENCE, Tlv(OID, oid))| <= end
    ensures var r := GetSignedDataHeader(lib, buf, p, end);
            if lib.mdAlg(hashOid) == 0 && oid == PKCS7_DATA then r == Ok(hashOid, p2 + |Tlv(SEQUENCE, Tlv(OID, oid))|)
            else r.Err? && r.rc == if lib.mdAlg(hashOid) != 0 then INVALID_ALG + lib.mdAlg(hashOid) else INVALID_CONTENT_INFO
  {
    hide Tlv;
    hide AlgorithmId;
    hide Has;
    hide GetTag;
    hide GetInt;
    hide GetDigestAlgorithmSet;
    hide GetContentInfoType;
    VersionReadsBack(buf, at, end);
    DigestAlgorithmReadsBack(buf, p1, end, hashOid);
    var start := NoContentReadsBack(buf, p2, end, oid);
  }

  lemma SignerSetReadsBack(lib: Library, buf: bytes, p: nat, end: nat, hashOid: bytes, certs: seq<bytes>, signers: seq<SignerPart>)
    requires |buf| < U32_LIMIT && forall s | s in signers :: HasReadableIssuer(lib, s)
    requires end <= |buf| && Has(buf, p, FromSigners(hashOid, signers)) && p + |FromSigners(hashOid, signers)| == end
    ensures WithSigners(lib, hashOid, Mirror(certs), buf, p, end) == Parsed(DataOf(hashOid, certs, signers))
  {
    TlvIsLonger(SET, SignerInfos(hashOid, signers));
    hide Tlv;
    hide SignerInfos;
    hide Mirror;
    hide Has;
    hide GetTag;
    hide SignersIn;
    var q := TlvReadsBack(buf, p, end, SET, SignerInfos(hashOid, signers));
    SignersReadBack(lib, buf, q, end, hashOid, signers);
  }

  lemma SignedDataIs(hashOid: bytes, certs: seq<bytes>, signers: seq<SignerPart>)
    ensures SignedDataDer(hashOid, certs, signers)
         == SignedDataWith(hashOid, PKCS7_DATA, FromCertificates(hashOid, certs, signers))
  {
  }

  lemma SignedDataReadsBack(lib: Library, buf: bytes, p: nat, end: nat, hashOid: bytes, certs: seq<bytes>, signers: seq<SignerPart>)
    requires Lawful(lib) && lib.mdAlg(hashOid) == 0 && |buf| < U32_LIMIT
    requires certs != [] && forall c | c in certs :: SelfDelimiting(lib, c)
    requires forall s | s in signers :: HasReadableIssuer(lib, s)
    requires end <= |buf| && Has(buf, p, SignedDataDer(hashOid, certs, signers)) && p + |SignedDataDer(hashOid, certs, signers)| == end
    ensures SignedDataIn(lib, buf, p, end) == Parsed(DataOf(hashOid, certs, signers))
  {
    TlvIsLonger(CONTEXT, Certificates(certs));
    SignedDataIs(hashOid, certs, signers);
    hide Lawful;
    hide Tlv;
    hide SignedDataDer;
    hide SignedDataWith;
    hide FromSigners;
    hide Certificates;
    hide Mirror;
    hide DataOf;
    hide Has;
    hide GetTag;
    hide GetSignedDataHeader;
    hide WithSigners;
    hide CertificatesIn;
    var at := HeaderReadsBack(lib, buf, p, end, hashOid, PKCS7_DATA, FromCertificates(hashOid, certs, signers));
    HasSplit(buf, at, Tlv(CONTEXT, Certificates(certs)), FromSigners(hashOid, signers));
    var q := TlvReadsBack(buf, at, end, CONTEXT, Certificates(certs));
    CertificatesReadBack(lib, certs);
    SignerSetReadsBack(lib, buf, q + |Certificates(certs)|, end, hashOid, certs, signers);
  }

  /** A message that announces signed data leads the parser to what follows. */
  lemma EnvelopeReadsBack(message: bytes, data: bytes) returns (at: nat, q: nat)
    requires message == Envelope(data) && |message| < U32_LIMIT
    ensures && at + |PKCS7_SIGNED_DATA| <= |message|
            && GetContentInfoType(message, 0, |message|) == Ok(PKCS7_SIGNED_DATA, at)
            && GetTag(message, at + |PKCS7_SIGNED_DATA|, |message|, CONTEXT) == Ok(|data|, q)
            && Has(message, q, data) && q + |data| == |message|
  {
    hide Tlv;
    hide GetTag;
    hide GetContentInfoType;
    var content := Tlv(CONTEXT, data);
    HasItself(message);
    TlvIsLonger(CONTEXT, data);
    hide Has;
    at := ContentTypeReadsBack(message, 0, |message|, PKCS7_SIGNED_DATA, content);
    q := TlvReadsBack(message, at + |PKCS7_SIGNED_DATA|, |message|, CONTEXT, data);
  }

  lemma HasItself(b: bytes)
    ensures Has(b, 0, b)
  {
    assert b[0..|b|] == b;
  }

  /**
   * Generate then parse: the message parses, and what is recovered is version 1, the digest algorithm, and the
   * certificates and the signers in the order they were written.
   */
  lemma MessageReadsBack(lib: Library, hashOid: bytes, certs: seq<bytes>, signers: seq<SignerPart>)
    requires Lawful(lib) && lib.mdAlg(hashOid) == 0 && |ContentInfo(hashOid, certs, signers)| < U32_LIMIT
    requires certs != [] && forall c | c in certs :: SelfDelimiting(lib, c)
    requires forall s | s in signers :: HasReadableIssuer(lib, s)
    ensures ParseResult(lib, ContentInfo(hashOid, certs, signers)) == Parsed(DataOf(hashOid, certs, signers))
  {
    var message := ContentInfo(hashOid, certs, signers);
    hide Lawful;
    hide SignedDataDer;
    hide DataOf;
    hide Has;
    hide GetTag;
    hide GetContentInfoType;
    hide SignedDataIn;
    var at, q := EnvelopeReadsBack(message, SignedDataDer(hashOid, certs, signers));
    SignedDataReadsBack(lib, message, q, |message|, hashOid, certs, signers);
    assert GetContentType(message) == Ok((), at + |PKCS7_SIGNED_DATA|);
  }

  // ---------- refusals ----------

  /** A message of any other type is refused: with one code for the known types, with another for the rest. */
  lemma OtherTypeIsRefused(lib: Library, oid: bytes, rest: bytes)
    requires Lawful(lib) && oid != PKCS7_SIGNED_DATA && |Tlv(SEQUENCE, Tlv(OID, oid) + rest)| < U32_LIMIT
    ensures ParseResult(lib, Tlv(SEQUENCE, Tlv(OID, oid) + rest))
         == Failed(if oid in {PKCS7_DATA, PKCS7_ENVELOPED_DATA, PKCS7_SIGNED_AND_ENVELOPED_DATA, PKCS7_DIGESTED_DATA, PKCS7_ENCRYPTED_DATA}
                   then FEATURE_UNAVAILABLE else BAD_INPUT_DATA)
  {
    hide Lawful;
    hide Tlv;
    hide Has;
    hide GetContentInfoType;
    hide SignedDataIn;
    var message := Tlv(SEQUENCE, Tlv(OID, oid) + rest);
    HasItself(message);
    var at := ContentTypeReadsBack(message, 0, |message|, oid, rest);
  }

  /** The verdict on a message that announces signed data is that on the data. */
  lemma EnvelopeVerdict(lib: Library, data: bytes) returns (message: bytes, q: nat)
    requires Lawful(lib) && |Envelope(data)| < U32_LIMIT
    ensures message == Envelope(data) && Has(message, q, data) && q + |data| == |message|
    ensures ParseResult(lib, message) == SignedDataIn(lib, message, q, |message|)
  {
    hide Lawful;
    hide Envelope;
    hide Has;
    hide GetTag;
    hide GetContentInfoType;
    hide SignedDataIn;
    message := Envelope(data);
    var at;
    at, q := EnvelopeReadsBack(message, data);
    assert GetContentType(message) == Ok((), at + |PKCS7_SIGNED_DATA|);
  }

  /** Signed data of another version than 1 is refused. */
  lemma OtherVersionIsRefused(lib: Library, v: byte, rest: bytes)
    requires Lawful(lib) && v < 0x80 && v != 1 && |Envelope(Tlv(SEQUENCE, Tlv(INTEGER, [v]) + rest))| < U32_LIMIT
    ensures ParseResult(lib, Envelope(Tlv(SEQUENCE, Tlv(INTEGER, [v]) + rest))) == Failed(INVALID_VERSION)
  {
    var data := Tlv(SEQUENCE, Tlv(INTEGER, [v]) + rest);
    EnvelopeIsLonger(data);
    hide Lawful;
    hide Tlv;
    hide Has;
    hide GetTag;
    hide GetInt;
    hide ParseResult;
    var message, q := EnvelopeVerdict(lib, data);
    var at := PairReadsBack(message, q, |message|, SEQUENCE, Tlv(INTEGER, [v]), rest);
    SmallNumberReadsBack(message, at, |message|, v);
  }

  lemma EnvelopeIsLonger(data: bytes)
    ensures |data| < |Envelope(data)|
  {
  }

  /** Signed data with an unknown digest algorithm, or around content of another type than data, is refused. */
  lemma OtherContentIsRefused(lib: Library, hashOid: bytes, oid: bytes, rest: bytes)
    requires Lawful(lib) && (lib.mdAlg(hashOid) != 0 || oid != PKCS7_DATA)
    requires |Envelope(SignedDataWith(hashOid, oid, rest))| < U32_LIMIT
    ensures ParseResult(lib, Envelope(SignedDataWith(hashOid, oid, rest)))
         == Failed(if lib.mdAlg(hashOid) != 0 then INVALID_ALG + lib.mdAlg(hashOid) else INVALID_CONTENT_INFO)
  {
    var data := SignedDataWith(hashOid, oid, rest);
    EnvelopeIsLonger(data);
    hide Lawful;
    hide Envelope;
    hide SignedDataWith;
    hide Has;
    hide GetSignedDataHeader;
    hide ParseResult;
    var message, q := EnvelopeVerdict(lib, data);
    var at := HeaderReadsBack(lib, message, q, |message|, hashOid, oid, rest);
  }


  // ---------- what may be missing ----------

  /** A message may start with the [0] value: without an identifier the signed data is sought there. */
  lemma BareDataReadsBack(lib: Library, data: bytes) returns (message: bytes, q: nat)
    requires Lawful(lib) && |Tlv(CONTEXT, data)| < U32_LIMIT
    ensures message == Tlv(CONTEXT, data) && Has(message, q, data) && q + |data| == |message|
    ensures ParseResult(lib, message) == SignedDataIn(lib, message, q, |message|)
  {
    message := Tlv(CONTEXT, data);
    StartsWithContext(message);
    HasItself(message);
    TlvIsLonger(CONTEXT, data);
    hide *;
    q := TlvReadsBack(message, 0, |message|, CONTEXT, data);
    FromCursor(lib, message, 0, q, data);
  }

  lemma FromCursor(lib: Library, message: bytes, p: nat, q: nat, data: bytes)
    requires Lawful(lib) && p <= |message| && GetContentType(message) == Ok((), p)
    requires GetTag(message, p, |message|, CONTEXT) == Ok(|data|, q) && q + |data| == |message|
    ensures ParseResult(lib, message) == SignedDataIn(lib, message, q, |message|)
  {
    hide Lawful;
    hide GetTag;
    hide GetContentType;
    hide SignedDataIn;
  }

  lemma StartsWithContext(message: bytes)
    requires |message| > 0 && message[0] == CONTEXT
    ensures GetContentType(message) == Ok((), 0)
  {
    hide GetLen;
    assert GetTag(message, 0, |message|, SEQUENCE) == Err(UNEXPECTED_TAG, 0);
  }

  /** Signed data without a [0] value has no certificates, and its signers are read all the same. */
  lemma NoCertificatesReadBack(lib: Library, hashOid: bytes, signers: seq<SignerPart>)
    requires Lawful(lib) && lib.mdAlg(hashOid) == 0 && forall s | s in signers :: HasReadableIssuer(lib, s)
    requires |Envelope(SignedDataWith(hashOid, PKCS7_DATA, FromSigners(hashOid, signers)))| < U32_LIMIT
    ensures ParseResult(lib, Envelope(SignedDataWith(hashOid, PKCS7_DATA, FromSigners(hashOid, signers))))
         == Parsed(SignedData(1, hashOid, [], SignersOf(hashOid, signers)))
  {
    var data := SignedDataWith(hashOid, PKCS7_DATA, FromSigners(hashOid, signers));
    EnvelopeIsLonger(data);
    hide Lawful;
    hide Envelope;
    hide SignedDataWith;
    hide Has;
    hide GetTag;
    hide GetSignedDataHeader;
    hide WithSigners;
    hide ParseResult;
    var message, q := EnvelopeVerdict(lib, data);
    var at := HeaderReadsBack(lib, message, q, |message|, hashOid, PKCS7_DATA, FromSigners(hashOid, signers));
    NotContext(message, at, |message|, hashOid, signers);
    SignerSetReadsBack(lib, message, at, |message|, hashOid, [], signers);
  }

  /** A set of signers is not taken for certificates. */
  lemma NotContext(buf: bytes, p: nat, end: nat, hashOid: bytes, signers: seq<SignerPart>)
    requires end <= |buf| && Has(buf, p, FromSigners(hashOid, signers)) && p + |FromSigners(hashOid, signers)| == end
    ensures p < end && GetTag(buf, p, end, CONTEXT) == Err(UNEXPECTED_TAG, p)
  {
    var at := TlvSplits(buf, p, SET, SignerInfos(hashOid, signers));
    hide Tlv;
    hide SignerInfos;
  }
}
