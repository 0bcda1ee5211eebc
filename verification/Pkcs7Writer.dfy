/**
 * The PKCS7 generator: it writes a message backwards into a buffer that doubles when it is full, takes every nested
 * length from the count of bytes already written, and finally trims the unwritten front.
 */
module Pkcs7Writer {
  import opened Bytes
  import opened Codes
  import opened Platform
  import opened Der

  const BUF_TOO_SMALL := -0x6C
  const INVALID_LENGTH := -0x64
  const INITIAL_SIZE := 2

  /** What one call of `setPKCS7Data` puts in front of the bytes already written. */
  datatype Piece =
    | Version(value: byte)
    | Header(tag: byte, size: nat)
    | Algorithm(oid: bytes, parLen: nat)
    | ContentType(oid: bytes)
    | Octets(data: bytes)
    | Raw(data: bytes)
    | Serial(data: bytes)

  /** The header of a constructed value of which `parLen` bytes were written before; without any, NULL parameters. */
  function AlgorithmBytes(oid: bytes, parLen: nat): (r: bytes) {
    if parLen == 0 then AlgorithmId(oid)
    else [SEQUENCE] + Length(|Tlv(OID, oid)| + parLen) + Tlv(OID, oid)
  }

  lemma AlgorithmShape(oid: bytes, parLen: nat)
    ensures var params, n := if parLen == 0 then NULL_PARAMETERS else [], if parLen == 0 then 2 else parLen;
            AlgorithmBytes(oid, parLen) == [SEQUENCE] + Length(|Tlv(OID, oid)| + n) + (Tlv(OID, oid) + params)
  {
    if parLen == 0 {
      assert |Tlv(OID, oid) + NULL_PARAMETERS| == |Tlv(OID, oid)| + 2;
    } else {
      assert Tlv(OID, oid) + [] == Tlv(OID, oid);
    }
  }

  function PieceBytes(p: Piece): (r: bytes) {
    match p
    case Version(v) => Tlv(INTEGER, [v])
    case Header(tag, size) => [tag] + Length(size)
    case Algorithm(oid, parLen) => AlgorithmBytes(oid, parLen)
    case ContentType(oid) => Tlv(SEQUENCE, Tlv(OID, oid))
    case Octets(data) => Tlv(OCTET_STRING, data)
    case Raw(data) => data
    case Serial(data) => Tlv(INTEGER, data)
  }

  /** The largest length the piece has to encode. */
  function Extent(p: Piece): (r: nat) {
    match p
    case Version(_) => 1
    case Header(_, size) => size
    case Algorithm(oid, parLen) => |Tlv(OID, oid)| + (if parLen == 0 then 2 else parLen)
    case ContentType(oid) => |Tlv(OID, oid)|
    case Octets(data) => |data|
    case Raw(_) => 0
    case Serial(data) => |data|
  }

  // ---------- what is to be written ----------

  /** What the generator takes from a parsed certificate. */
  datatype CertInfo = CertInfo(issuer: bytes, serial: bytes, isRsa: bool)

  /** The library's certificate parser and its signing with a private key matched against the certificate. */
  datatype Signing = Signing(
    parse: bytes -> Option<CertInfo>,
    sign: (bytes, bytes, bytes) -> Option<bytes>)

  /** `PKCS7Info`; `keys` holds signatures instead of private keys when `alreadySigned`. */
  datatype Pkcs7Info = Pkcs7Info(crts: seq<bytes>, keys: seq<bytes>, alreadySigned: bool, newData: bytes, hashOid: bytes)

  function SignatureOf(env: Signing, info: Pkcs7Info, i: nat): (r: Option<bytes>)
    requires i < |info.crts| == |info.keys|
  {
    if info.alreadySigned then Some(info.keys[i]) else env.sign(info.crts[i], info.keys[i], info.newData)
  }

  /** What is written for signer `i`, if its certificate parses, is for RSA, and gives a signature. */
  function PartOf(env: Signing, info: Pkcs7Info, i: nat): (r: Option<SignerPart>)
    requires i < |info.crts| == |info.keys|
  {
    match (env.parse(info.crts[i]), SignatureOf(env, info, i))
    case (Some(c), Some(sig)) => if c.isRsa then Some(SignerPart(c.issuer, c.serial, sig)) else None
    case _ => None
  }

  predicate Complete(env: Signing, info: Pkcs7Info, n: nat)
    requires n <= |info.crts| == |info.keys|
  {
    forall i | 0 <= i < n :: PartOf(env, info, i).Some?
  }

  function Parts(env: Signing, info: Pkcs7Info, n: nat): (parts: seq<SignerPart>)
    requires n <= |info.crts| == |info.keys| && Complete(env, info, n)
    ensures |parts| == n && forall i | 0 <= i < n :: parts[i] == PartOf(env, info, i).value
  {
    if n == 0 then [] else Parts(env, info, n - 1) + [PartOf(env, info, n - 1).value]
  }

  /** There is a signer, and what each needs can be had. */
  predicate Signed(env: Signing, info: Pkcs7Info)
    requires |info.crts| == |info.keys|
  {
    0 < |info.crts| && Complete(env, info, |info.crts|)
  }

  /** The signers in the order they are given. */
  function Signers(env: Signing, info: Pkcs7Info): (parts: seq<SignerPart>)
    requires |info.crts| == |info.keys| && Signed(env, info)
    ensures |parts| == |info.crts| && forall i | 0 <= i < |info.crts| :: parts[i] == PartOf(env, info, i).value
  {
    Parts(env, info, |info.crts|)
  }

  /**
   * A message can be generated exactly when there is a signer and every certificate parses and is for RSA, and, unless
   * the signatures are given, every private key signs the data.
   */
  lemma SignedExactly(env: Signing, info: Pkcs7Info)
    requires |info.crts| == |info.keys|
    ensures Signed(env, info)
       <==> && |info.crts| > 0
            && forall i | 0 <= i < |info.crts| ::
                 && env.parse(info.crts[i]).Some? && env.parse(info.crts[i]).value.isRsa
                 && (info.alreadySigned || env.sign(info.crts[i], info.keys[i], info.newData).Some?)
  {
    forall i | 0 <= i < |info.crts|
      ensures PartOf(env, info, i).Some?
         <==> && env.parse(info.crts[i]).Some? && env.parse(info.crts[i]).value.isRsa
              && (info.alreadySigned || env.sign(info.crts[i], info.keys[i], info.newData).Some?)
    {
    }
    hide PartOf;
  }

  /**
   * Where the parts of each signer come from: issuer and serial from its certificate, and the signature from its private
   * key over the data, or, when the signatures are given, the one given for it.
   */
  lemma SignersAre(env: Signing, info: Pkcs7Info, i: nat)
    requires |info.crts| == |info.keys| && Signed(env, info) && i < |info.crts|
    ensures env.parse(info.crts[i]).Some?
    ensures Signers(env, info)[i].issuer == env.parse(info.crts[i]).value.issuer
    ensures Signers(env, info)[i].serial == env.parse(info.crts[i]).value.serial
    ensures info.alreadySigned ==> Signers(env, info)[i].sig == info.keys[i]
    ensures !info.alreadySigned ==> env.sign(info.crts[i], info.keys[i], info.newData) == Some(Signers(env, info)[i].sig)
  {
    hide Parts;
    assert PartOf(env, info, i).Some?;
  }

  /** The message that is to be generated. */
  function MessageOf(env: Signing, info: Pkcs7Info): (r: bytes)
    requires |info.crts| == |info.keys| && Signed(env, info)
  {
    ContentInfo(info.hashOid, info.crts, Signers(env, info))
  }

  lemma SignerInfoIsTlv(hashOid: bytes, part: SignerPart)
    ensures SignerInfo(hashOid, part) == Tlv(SEQUENCE, SignerBody(hashOid, part))
    ensures |SignerBody(hashOid, part)| < |SignerInfo(hashOid, part)|
  {
  }

  lemma PartsGrow(env: Signing, info: Pkcs7Info, i: nat, was: bytes)
    requires i < |info.crts| == |info.keys| && Complete(env, info, i + 1)
    ensures SignerInfos(info.hashOid, Parts(env, info, i + 1)) + was
         == SignerInfo(info.hashOid, PartOf(env, info, i).value) + (SignerInfos(info.hashOid, Parts(env, info, i)) + was)
  {
    hide SignerInfo;
    assert Parts(env, info, i + 1)[..i] == Parts(env, info, i);
    Assoc(SignerInfo(info.hashOid, PartOf(env, info, i).value), SignerInfos(info.hashOid, Parts(env, info, i)), was);
  }

  lemma {:induction false} PartBound(env: Signing, info: Pkcs7Info, n: nat, i: nat)
    requires i < n <= |info.crts| == |info.keys| && Complete(env, info, n)
    ensures |SignerInfo(info.hashOid, PartOf(env, info, i).value)| <= |SignerInfos(info.hashOid, Parts(env, info, n))|
  {
    hide SignerInfo;
    PartsGrow(env, info, n - 1, []);
    if i < n - 1 {
      PartBound(env, info, n - 1, i);
    }
  }

  /** The message is its outermost header, the identifier, and the [0] value of the signed data. */
  lemma MessageShape(env: Signing, info: Pkcs7Info)
    requires |info.crts| == |info.keys| && Signed(env, info)
    ensures var signedData := SignedDataDer(info.hashOid, info.crts, Signers(env, info));
            && PieceBytes(Algorithm(PKCS7_SIGNED_DATA, |Tlv(CONTEXT, signedData)|)) + Tlv(CONTEXT, signedData)
               == MessageOf(env, info)
            && |FromVersion(info.hashOid, info.crts, Signers(env, info))| < |signedData| < |Tlv(CONTEXT, signedData)|
            && |Tlv(OID, PKCS7_SIGNED_DATA)| + |Tlv(CONTEXT, signedData)| < |MessageOf(env, info)|
  {
    var data := FromVersion(info.hashOid, info.crts, Signers(env, info));
    var signedData := Tlv(SEQUENCE, data);
    var content := Tlv(CONTEXT, signedData);
    TlvIsLonger(SEQUENCE, data);
    TlvIsLonger(CONTEXT, signedData);
    TlvIsLonger(SEQUENCE, Tlv(OID, PKCS7_SIGNED_DATA) + content);
    IdentifierInFront(PKCS7_SIGNED_DATA, content);
    hide Tlv;
    hide FromVersion;
    hide PieceBytes;
  }

  lemma IdentifierInFront(oid: bytes, content: bytes)
    requires content != []
    ensures PieceBytes(Algorithm(oid, |content|)) + content == Tlv(SEQUENCE, Tlv(OID, oid) + content)
  {
    Assoc([SEQUENCE] + Length(|Tlv(OID, oid)| + |content|), Tlv(OID, oid), content);
  }

  lemma Assoc(a: bytes, b: bytes, c: bytes)
    ensures a + (b + c) == (a + b) + c
  {
  }

  lemma AlgorithmWithoutContent(oid: bytes)
    ensures PieceBytes(Algorithm(oid, 0)) == AlgorithmId(oid) && Extent(Algorithm(oid, 0)) <= |AlgorithmId(oid)|
  {
  }

  lemma HeaderMakesTlv(tag: byte, content: bytes, rest: bytes)
    ensures PieceBytes(Header(tag, |content|)) + (content + rest) == Tlv(tag, content) + rest
  {
    Assoc([tag] + Length(|content|), content, rest);
  }

  class Buffer {
    var start: array<byte>
    var ptr: nat

    ghost predicate Valid()
      reads this, start
      ensures Valid() ==> ptr <= start.Length
    {
      && 0 < start.Length && ptr <= start.Length
      // from the first growth on nothing lies below the written bytes
      && (start.Length > INITIAL_SIZE ==> Clean())
    }

    ghost predicate Clean()
      requires ptr <= start.Length
      reads this, start
    {
      forall i | 0 <= i < ptr :: start[i] == 0
    }

    /** The bytes written so far. */
    ghost function Written(): (r: bytes)
      requires ptr <= start.Length
      reads this, start
    {
      start[ptr..]
    }

    /** A fresh two-byte buffer with whatever the allocator left in it. */
    constructor ()
      ensures Valid() && Written() == [] && fresh(start)
    {
      start := new byte[INITIAL_SIZE];
      ptr := INITIAL_SIZE;
    }

    /** `*size - (*ptr - *start)` */
    method Used() returns (n: nat)
      requires ptr <= start.Length
      ensures n == |Written()|
    {
      n := start.Length - ptr;
    }

    /** `allocateMoreMemory`: twice the size, the written bytes at its end, zeros in front. */
    method AllocateMoreMemory()
      requires ptr <= start.Length && 0 < start.Length
      modifies this
      ensures fresh(start) && start.Length == 2 * old(start.Length) && ptr == old(ptr + start.Length)
      ensures ptr <= start.Length && Written() == old(Written()) && Clean()
    {
      var newStart := new byte[2 * start.Length](_ => 0);
      var newPtr := start.Length + ptr;
      Memcpy(newStart, newPtr, start[ptr..]);
      assert forall i | 0 <= i < newPtr :: newStart[..][i] == newStart[i] == 0;
      start, ptr := newStart, newPtr;
    }

    // ---------- the library's writers: the value in front of ptr, or BUF_TOO_SMALL ----------

    method WriteRaw(b: bytes) returns (rc: int)
      requires ptr <= start.Length
      modifies this`ptr, start
      ensures start == old(start) && Wrote(old(start[..]), old(ptr), start[..], ptr, b, rc)
      ensures rc >= 0 ==> rc == |b|
    {
      if ptr < |b| {
        return BUF_TOO_SMALL;
      }
      Memcpy(start, ptr - |b|, b);
      ptr := ptr - |b|;
      rc := |b|;
    }

    /** `mbedtls_asn1_write_len` */
    method WriteLen(n: nat) returns (rc: int)
      requires ptr <= start.Length
      modifies this`ptr, start
      ensures start == old(start) && n < U32_LIMIT ==> Wrote(old(start[..]), old(ptr), start[..], ptr, Length(n), rc)
      ensures start == old(start) && n >= U32_LIMIT ==> rc == INVALID_LENGTH && ptr == old(ptr) && start[..] == old(start[..])
    {
      if n >= U32_LIMIT {
        return INVALID_LENGTH;
      }
      LengthDigits(n);
      hide Length;
      var digits :=
        if n < 0x80 then [n as byte]
        else if n <= 0xFF then [0x81, n as byte]
        else if n <= 0xFFFF then [0x82, (n / 0x100) as byte, (n % 0x100) as byte]
        else if n <= 0xFF_FFFF then [0x83, (n / 0x1_0000) as byte, (n / 0x100 % 0x100) as byte, (n % 0x100) as byte]
        else [0x84, (n / 0x100_0000) as byte, (n / 0x1_0000 % 0x100) as byte, (n / 0x100 % 0x100) as byte, (n % 0x100) as byte];
      rc := WriteRaw(digits);
    }

    /** A tag and a length in front of `n` bytes that count as its content. */
    method WriteHeader(tag: byte, n: nat) returns (rc: int)
      requires ptr <= start.Length && n < U32_LIMIT
      modifies this`ptr, start
      ensures start == old(start) && Wrote(old(start[..]), old(ptr), start[..], ptr, [tag] + Length(n), rc)
    {
      hide Length;
      rc := WriteLen(n);
      if rc < 0 {
        return;
      }
      ghost var s1, p1 := start[..], ptr;
      rc := WriteRaw([tag]);
      WroteTwice(old(start[..]), old(ptr), s1, p1, start[..], ptr, Length(n), [tag], rc);
    }

    /** `mbedtls_asn1_write_octet_string`, `mbedtls_asn1_write_tagged_string`: content, length, tag. */
    method WriteTagged(tag: byte, content: bytes) returns (rc: int)
      requires ptr <= start.Length && |content| < U32_LIMIT
      modifies this`ptr, start
      ensures start == old(start) && Wrote(old(start[..]), old(ptr), start[..], ptr, Tlv(tag, content), rc)
    {
      hide Length;
      rc := WriteRaw(content);
      if rc < 0 {
        return;
      }
      ghost var s1, p1 := start[..], ptr;
      rc := WriteHeader(tag, |content|);
      WroteTwice(old(start[..]), old(ptr), s1, p1, start[..], ptr, content, [tag] + Length(|content|), rc);
    }

    /** `mbedtls_asn1_write_algorithm_identifier` */
    method WriteAlgorithm(oid: bytes, parLen: nat) returns (rc: int)
      requires ptr <= start.Length && Extent(Algorithm(oid, parLen)) < U32_LIMIT
      modifies this`ptr, start
      ensures start == old(start) && Wrote(old(start[..]), old(ptr), start[..], ptr, AlgorithmBytes(oid, parLen), rc)
    {
      AlgorithmShape(oid, parLen);
      hide Tlv;
      hide Length;
      hide AlgorithmBytes;
      ghost var s0, p0 := start[..], ptr;
      var len := parLen;
      ghost var done: bytes := [];
      if parLen == 0 {
        rc := WriteRaw(NULL_PARAMETERS);
        if rc < 0 {
          return;
        }
        len, done := 2, NULL_PARAMETERS;
      }
      ghost var s1, p1 := start[..], ptr;
      assert WroteAll(s0, p0, s1, p1, done);
      var tlv := Tlv(OID, oid);
      rc := WriteTagged(OID, oid);
      WroteTwice(s0, p0, s1, p1, start[..], ptr, done, tlv, rc);
      if rc < 0 {
        return;
      }
      ghost var s2, p2 := start[..], ptr;
      rc := WriteHeader(SEQUENCE, |tlv| + len);
      WroteTwice(s0, p0, s2, p2, start[..], ptr, tlv + done, [SEQUENCE] + Length(|tlv| + len), rc);
    }

    /** One round of the dispatch on the kind of data. */
    method Attempt(p: Piece) returns (rc: int)
      requires ptr <= start.Length && Extent(p) < U32_LIMIT
      modifies this`ptr, start
      ensures start == old(start) && Wrote(old(start[..]), old(ptr), start[..], ptr, PieceBytes(p), rc)
    {
      hide Length;
      hide AlgorithmBytes;
      match p
      case Version(v) => rc := WriteTagged(INTEGER, [v]);
      case Header(tag, size) => rc := WriteHeader(tag, size);
      case Algorithm(oid, parLen) => rc := WriteAlgorithm(oid, parLen);
      case Octets(data) => rc := WriteTagged(OCTET_STRING, data);
      case Raw(data) => rc := WriteRaw(data);
      case Serial(data) => rc := WriteTagged(INTEGER, data);
      case ContentType(oid) =>
        ghost var s0, p0 := start[..], ptr;
        rc := WriteTagged(OID, oid);
        if rc >= 0 {
          ghost var s1, p1 := start[..], ptr;
          rc := WriteHeader(SEQUENCE, |Tlv(OID, oid)|);
          WroteTwice(s0, p0, s1, p1, start[..], ptr, Tlv(OID, oid), [SEQUENCE] + Length(|Tlv(OID, oid)|), rc);
          assert PieceBytes(p) == [SEQUENCE] + Length(|Tlv(OID, oid)|) + Tlv(OID, oid);
        }
    }

    /**
     * `setPKCS7Data`: puts the piece in front of what was written, growing the buffer as often as it takes. Only a
     * length of 4 GiB or more is refused.
     */
    method SetData(p: Piece) returns (rc: int)
      requires Valid()
      modifies this, start
      ensures Valid() && (start == old(start) || fresh(start))
      ensures rc == if Extent(p) < U32_LIMIT then SUCCESS else FILE_WRITE_FAIL
      ensures rc == SUCCESS ==> Written() == PieceBytes(p) + old(Written())
    {
      if Extent(p) >= U32_LIMIT {
        return FILE_WRITE_FAIL;
      }
      hide PieceBytes;
      hide Extent;
      var ptrTmp := ptr;
      ghost var written := Written();
      rc := Attempt(p);
      SuffixOf(start, ptrTmp, ptr, old(start[..]), PieceBytes(p), rc);
      while rc == BUF_TOO_SMALL
        invariant start == old(start) || fresh(start)
        invariant ptr <= ptrTmp <= start.Length && 0 < start.Length && start[ptrTmp..] == written
        invariant rc >= 0 || rc == BUF_TOO_SMALL
        invariant rc < 0 ==> ptrTmp < |PieceBytes(p)|
        invariant rc >= 0 ==> Written() == PieceBytes(p) + written && Valid()
        decreases |PieceBytes(p)| - ptrTmp, rc < 0
      {
        ptr := ptrTmp;
        AllocateMoreMemory();
        ptrTmp := ptr;
        ghost var grown := start[..];
        rc := Attempt(p);
        SuffixOf(start, ptrTmp, ptr, grown, PieceBytes(p), rc);
      }
      rc := SUCCESS;
    }

    /** The header over what a step has put in front of `was`: its length is the growth of the written bytes. */
    method SetHeader(tag: byte, used: nat, ghost content: bytes, ghost was: bytes) returns (rc: int)
      requires Valid() && used == |was| && Written() == content + was
      modifies this, start
      ensures Valid() && (start == old(start) || fresh(start))
      ensures rc == SUCCESS ==> Written() == Tlv(tag, content) + was
      ensures |content| < U32_LIMIT ==> rc == SUCCESS
    {
      hide Tlv;
      hide PieceBytes;
      hide Valid;
      var usedNow := Used();
      var bytesWrittenInStep := usedNow - used;
      rc := SetData(Header(tag, bytesWrittenInStep));
      HeaderMakesTlv(tag, content, was);
    }

    // ---------- the chain of setters, each in front of what the earlier ones wrote ----------

    /** `setAlgorithmIDs`, with the signature made by `setSignature` or given. */
    method SetAlgorithmIds(env: Signing, info: Pkcs7Info, i: nat, pub: CertInfo) returns (rc: int)
      requires Valid() && i < |info.crts| == |info.keys| && env.parse(info.crts[i]) == Some(pub)
      modifies this, start
      ensures Valid() && (start == old(start) || fresh(start))
      ensures rc == SUCCESS ==>
                && PartOf(env, info, i).Some?
                && Written() == AlgorithmsAndSignature(info.hashOid, PartOf(env, info, i).value.sig) + old(Written())
      ensures PartOf(env, info, i).Some? && |AlgorithmsAndSignature(info.hashOid, PartOf(env, info, i).value.sig)| <= INT_MAX
              ==> rc == SUCCESS
    {
      hide Tlv;
      hide AlgorithmBytes;
      hide AlgorithmId;
      var sig := SignatureOf(env, info, i);
      if sig.None? {
        return CERT_FAIL;
      }
      ghost var was := Written();
      rc := SetData(Octets(sig.value));
      if rc != SUCCESS {
        return;
      }
      if !pub.isRsa {
        return CERT_FAIL;
      }
      AlgorithmWithoutContent(PKCS1_RSA);
      AlgorithmWithoutContent(info.hashOid);
      rc := SetData(Algorithm(PKCS1_RSA, 0));
      if rc == SUCCESS {
        rc := SetData(Algorithm(info.hashOid, 0));
      }
      Assoc(AlgorithmId(PKCS1_RSA), Tlv(OCTET_STRING, sig.value), was);
      Assoc(AlgorithmId(info.hashOid), AlgorithmId(PKCS1_RSA) + Tlv(OCTET_STRING, sig.value), was);
    }

    /** The serial number, the issuer in front of it, and their sequence. */
    method SetIssuerAndSerial(pub: CertInfo) returns (rc: int)
      requires Valid()
      modifies this, start
      ensures Valid() && (start == old(start) || fresh(start))
      ensures rc == SUCCESS ==>
                Written() == Tlv(SEQUENCE, pub.issuer + Tlv(INTEGER, pub.serial)) + old(Written())
      ensures |pub.issuer + Tlv(INTEGER, pub.serial)| <= INT_MAX ==> rc == SUCCESS
    {
      hide Tlv;
      ghost var was := Written();
      var used := Used();
      rc := SetData(Serial(pub.serial));
      if rc != SUCCESS {
        return;
      }
      rc := SetData(Raw(pub.issuer));
      if rc != SUCCESS {
        return;
      }
      Assoc(pub.issuer, Tlv(INTEGER, pub.serial), was);
      rc := SetHeader(SEQUENCE, used, pub.issuer + Tlv(INTEGER, pub.serial), was);
    }

    /** `setSignerCertData`: issuer and serial, and the version in front of the algorithms. */
    method SetSignerCertData(env: Signing, info: Pkcs7Info, i: nat, pub: CertInfo) returns (rc: int)
      requires Valid() && i < |info.crts| == |info.keys| && env.parse(info.crts[i]) == Some(pub)
      modifies this, start
      ensures Valid() && (start == old(start) || fresh(start))
      ensures rc == SUCCESS ==>
                && PartOf(env, info, i).Some?
                && Written() == SignerBody(info.hashOid, PartOf(env, info, i).value) + old(Written())
      ensures PartOf(env, info, i).Some? && |SignerBody(info.hashOid, PartOf(env, info, i).value)| <= INT_MAX ==> rc == SUCCESS
    {
      hide Tlv;
      hide AlgorithmsAndSignature;
      ghost var was := Written();
      rc := SetAlgorithmIds(env, info, i, pub);
      if rc != SUCCESS {
        return;
      }
      ghost var part := PartOf(env, info, i).value;
      ghost var algorithms := AlgorithmsAndSignature(info.hashOid, part.sig);
      ghost var issuerAndSerial := IssuerAndSerial(part);
      rc := SetIssuerAndSerial(pub);
      if rc != SUCCESS {
        return;
      }
      rc := SetData(Version(1));
      Assoc(issuerAndSerial, algorithms, was);
      Assoc(Tlv(INTEGER, [1]), issuerAndSerial + algorithms, was);
    }

    /** One round of `setSignerDataForEachSigner`. */
    method SetOneSigner(env: Signing, info: Pkcs7Info, i: nat) returns (rc: int)
      requires Valid() && i < |info.crts| == |info.keys|
      modifies this, start
      ensures Valid() && (start == old(start) || fresh(start))
      ensures rc == SUCCESS ==>
                && PartOf(env, info, i).Some?
                && Written() == SignerInfo(info.hashOid, PartOf(env, info, i).value) + old(Written())
      ensures PartOf(env, info, i).Some? && |SignerInfo(info.hashOid, PartOf(env, info, i).value)| <= INT_MAX ==> rc == SUCCESS
    {
      var x509 := env.parse(info.crts[i]);
      if x509.None? {
        return CERT_FAIL;
      }
      hide Tlv;
      hide PieceBytes;
      hide SignerBody;
      hide SignerInfo;
      hide PartOf;
      hide Valid;
      ghost var was := Written();
      if PartOf(env, info, i).Some? { SignerInfoIsTlv(info.hashOid, PartOf(env, info, i).value); }
      var used := Used();
      rc := SetSignerCertData(env, info, i, x509.value);
      if rc != SUCCESS {
        return;
      }
      rc := SetHeader(SEQUENCE, used, SignerBody(info.hashOid, PartOf(env, info, i).value), was);
    }

    /** Signer `i` in front of the signers before it, which stand in front of `was`. */
    method SetNextSigner(env: Signing, info: Pkcs7Info, i: nat, ghost was: bytes) returns (rc: int)
      requires Valid() && i < |info.crts| == |info.keys| && Complete(env, info, i)
      requires Written() == SignerInfos(info.hashOid, Parts(env, info, i)) + was
      modifies this, start
      ensures Valid() && (start == old(start) || fresh(start))
      ensures rc == SUCCESS ==>
                && Complete(env, info, i + 1)
                && Written() == SignerInfos(info.hashOid, Parts(env, info, i + 1)) + was
      ensures Signed(env, info) && |SignerInfos(info.hashOid, Signers(env, info))| <= INT_MAX ==> rc == SUCCESS
    {
      hide Valid;
      hide SignerInfo;
      hide SignerInfos;
      hide Parts;
      hide PartOf;
      if Signed(env, info) { PartBound(env, info, |info.crts|, i); }
      rc := SetOneSigner(env, info, i);
      if rc == SUCCESS {
        PartsGrow(env, info, i, was);
      }
    }

    /** `setSignerDataForEachSigner`: each signer goes in front of the earlier ones; at least one is needed. */
    method SetSignerDataForEachSigner(env: Signing, info: Pkcs7Info) returns (rc: int)
      requires Valid() && |info.crts| == |info.keys|
      modifies this, start
      ensures Valid() && (start == old(start) || fresh(start))
      ensures rc == SUCCESS ==>
                && Signed(env, info)
                && Written() == SignerInfos(info.hashOid, Signers(env, info)) + old(Written())
      ensures Signed(env, info) && |SignerInfos(info.hashOid, Signers(env, info))| <= INT_MAX ==> rc == SUCCESS
    {
      ghost var was := Written();
      var keyPairs := |info.crts|;
      if keyPairs < 1 {
        return ARG_PARSE_FAIL;
      }
      assert SignerInfos(info.hashOid, Parts(env, info, 0)) + was == was;
      hide Valid;
      hide SignerInfos;
      hide Parts;
      hide PartOf;
      var i := 0;
      rc := SUCCESS;
      while i < keyPairs
        invariant Valid() && (start == old(start) || fresh(start))
        invariant 0 <= i <= keyPairs && Complete(env, info, i) && rc == SUCCESS
        invariant Written() == SignerInfos(info.hashOid, Parts(env, info, i)) + was
      {
        rc := SetNextSigner(env, info, i, was);
        if rc != SUCCESS {
          return;
        }
        i := i + 1;
      }
    }

    /** `setSignersData`: the set of the signers. */
    method SetSignersData(env: Signing, info: Pkcs7Info) returns (rc: int)
      requires Valid() && |info.crts| == |info.keys|
      modifies this, start
      ensures Valid() && (start == old(start) || fresh(start))
      ensures rc == SUCCESS ==> Signed(env, info) && Written() == FromSigners(info.hashOid, Signers(env, info)) + old(Written())
      ensures Signed(env, info) && |FromSigners(info.hashOid, Signers(env, info))| <= INT_MAX ==> rc == SUCCESS
    {
      hide Tlv;
      hide PieceBytes;
      hide SignerInfos;
      hide Signed;
      hide Signers;
      hide Valid;
      ghost var was := Written();
      var used := Used();
      rc := SetSignerDataForEachSigner(env, info);
      if rc != SUCCESS {
        return;
      }
      rc := SetHeader(SET, used, SignerInfos(info.hashOid, Signers(env, info)), was);
    }

    /** The certificates as they are, each in front of the earlier ones. */
    method SetCertificates(crts: seq<bytes>) returns (rc: int)
      requires Valid()
      modifies this, start
      ensures Valid() && (start == old(start) || fresh(start))
      ensures rc == SUCCESS && Written() == Certificates(crts) + old(Written())
    {
      hide Valid;
      ghost var was := Written();
      var i := 0;
      rc := SUCCESS;
      assert [] + was == was;
      while i < |crts|
        invariant Valid() && (start == old(start) || fresh(start))
        invariant 0 <= i <= |crts| && rc == SUCCESS
        invariant Written() == Certificates(crts[..i]) + was
      {
        rc := SetData(Raw(crts[i]));
        assert crts[..i + 1][..i] == crts[..i];
        Assoc(crts[i], Certificates(crts[..i]), was);
        i := i + 1;
      }
      assert crts[..i] == crts;
    }

    /** `setSignerCertRaw`: the certificates and then their header. */
    method SetSignerCertRaw(env: Signing, info: Pkcs7Info) returns (rc: int)
      requires Valid() && |info.crts| == |info.keys|
      modifies this, start
      ensures Valid() && (start == old(start) || fresh(start))
      ensures rc == SUCCESS ==> Signed(env, info) && Written() == FromCertificates(info.hashOid, info.crts, Signers(env, info)) + old(Written())
      ensures Signed(env, info) && |FromCertificates(info.hashOid, info.crts, Signers(env, info))| <= INT_MAX ==> rc == SUCCESS
    {
      hide Tlv;
      hide PieceBytes;
      hide FromSigners;
      hide Signed;
      hide Signers;
      hide Certificates;
      hide Valid;
      ghost var was := Written();
      rc := SetSignersData(env, info);
      if rc != SUCCESS {
        return;
      }
      ghost var signers := Written();
      var used := Used();
      rc := SetCertificates(info.crts);
      rc := SetHeader(CONTEXT, used, Certificates(info.crts), signers);
      Assoc(Tlv(CONTEXT, Certificates(info.crts)), FromSigners(info.hashOid, Signers(env, info)), was);
    }

    /** `setSignedDataOID`: the type of the (absent) content. */
    method SetSignedDataOid(env: Signing, info: Pkcs7Info) returns (rc: int)
      requires Valid() && |info.crts| == |info.keys|
      modifies this, start
      ensures Valid() && (start == old(start) || fresh(start))
      ensures rc == SUCCESS ==> Signed(env, info) && Written() == FromContentInfo(info.hashOid, info.crts, Signers(env, info)) + old(Written())
      ensures Signed(env, info) && |FromContentInfo(info.hashOid, info.crts, Signers(env, info))| <= INT_MAX ==> rc == SUCCESS
    {
      hide Tlv;
      hide FromCertificates;
      ghost var was := Written();
      rc := SetSignerCertRaw(env, info);
      if rc != SUCCESS {
        return;
      }
      rc := SetData(ContentType(PKCS7_DATA));
      Assoc(Tlv(SEQUENCE, Tlv(OID, PKCS7_DATA)), FromCertificates(info.hashOid, info.crts, Signers(env, info)), was);
    }

    /** `setAlgoID`: the set of the one digest algorithm. */
    method SetAlgoId(env: Signing, info: Pkcs7Info) returns (rc: int)
      requires Valid() && |info.crts| == |info.keys|
      modifies this, start
      ensures Valid() && (start == old(start) || fresh(start))
      ensures rc == SUCCESS ==> Signed(env, info) && Written() == FromAlgorithms(info.hashOid, info.crts, Signers(env, info)) + old(Written())
      ensures Signed(env, info) && |FromAlgorithms(info.hashOid, info.crts, Signers(env, info))| <= INT_MAX ==> rc == SUCCESS
    {
      hide Tlv;
      hide AlgorithmId;
      hide AlgorithmBytes;
      hide FromContentInfo;
      ghost var was := Written();
      rc := SetSignedDataOid(env, info);
      if rc != SUCCESS {
        return;
      }
      ghost var content := Written();
      var used := Used();
      AlgorithmWithoutContent(info.hashOid);
      rc := SetData(Algorithm(info.hashOid, 0));
      if rc != SUCCESS {
        return;
      }
      rc := SetHeader(SET, used, AlgorithmId(info.hashOid), content);
      Assoc(Tlv(SET, AlgorithmId(info.hashOid)), FromContentInfo(info.hashOid, info.crts, Signers(env, info)), was);
    }

    /** `setVersion` */
    method SetVersion(env: Signing, info: Pkcs7Info) returns (rc: int)
      requires Valid() && |info.crts| == |info.keys|
      modifies this, start
      ensures Valid() && (start == old(start) || fresh(start))
      ensures rc == SUCCESS ==> Signed(env, info) && Written() == FromVersion(info.hashOid, info.crts, Signers(env, info)) + old(Written())
      ensures Signed(env, info) && |FromVersion(info.hashOid, info.crts, Signers(env, info))| <= INT_MAX ==> rc == SUCCESS
    {
      hide Tlv;
      hide FromAlgorithms;
      ghost var was := Written();
      rc := SetAlgoId(env, info);
      if rc != SUCCESS {
        return;
      }
      rc := SetData(Version(1));
      Assoc(Tlv(INTEGER, [1]), FromAlgorithms(info.hashOid, info.crts, Signers(env, info)), was);
    }

    /** `setSignedData`: the sequence over everything in the buffer. */
    method SetSignedData(env: Signing, info: Pkcs7Info) returns (rc: int)
      requires Valid() && |info.crts| == |info.keys| && Written() == []
      modifies this, start
      ensures Valid() && (start == old(start) || fresh(start))
      ensures rc == SUCCESS ==> Signed(env, info) && Written() == SignedDataDer(info.hashOid, info.crts, Signers(env, info))
      ensures Signed(env, info) && |FromVersion(info.hashOid, info.crts, Signers(env, info))| <= INT_MAX ==> rc == SUCCESS
    {
      hide Tlv;
      hide FromVersion;
      rc := SetVersion(env, info);
      if rc != SUCCESS {
        return;
      }
      assert Written() == FromVersion(info.hashOid, info.crts, Signers(env, info));
      var used := Used();
      rc := SetData(Header(SEQUENCE, used));
      HeaderMakesTlv(SEQUENCE, FromVersion(info.hashOid, info.crts, Signers(env, info)), []);
      assert FromVersion(info.hashOid, info.crts, Signers(env, info)) + [] == FromVersion(info.hashOid, info.crts, Signers(env, info));
      assert SignedDataDer(info.hashOid, info.crts, Signers(env, info)) + [] == SignedDataDer(info.hashOid, info.crts, Signers(env, info));
    }

    /**
     * `setPKCS7OID`: the [0] header and the identifier of signed data in front of everything, so that the buffer holds
     * the whole message. Every nested length was taken from the count of written bytes.
     */
    method SetPkcs7Oid(env: Signing, info: Pkcs7Info) returns (rc: int)
      requires Valid() && |info.crts| == |info.keys| && Written() == []
      requires Signed(env, info) ==> |MessageOf(env, info)| <= INT_MAX
      modifies this, start
      ensures Valid() && (start == old(start) || fresh(start))
      ensures rc == SUCCESS <==> Signed(env, info)
      ensures rc == SUCCESS ==> Written() == MessageOf(env, info)
    {
      if Signed(env, info) { MessageShape(env, info); }
      hide Tlv;
      hide MessageOf;
      hide FromVersion;
      rc := SetSignedData(env, info);
      if rc != SUCCESS {
        return;
      }
      ghost var signedData := SignedDataDer(info.hashOid, info.crts, Signers(env, info));
      var used := Used();
      rc := SetData(Header(CONTEXT, used));
      HeaderMakesTlv(CONTEXT, signedData, []);
      assert signedData + [] == signedData && Tlv(CONTEXT, signedData) + [] == Tlv(CONTEXT, signedData);
      used := Used();
      rc := SetData(Algorithm(PKCS7_SIGNED_DATA, used));
    }

    /** What an attempt leaves above the old and the new end of the unwritten part. */
    lemma SuffixOf(a: array<byte>, p0: nat, p1: nat, s0: bytes, b: bytes, rc: int)
      requires Wrote(s0, p0, a[..], p1, b, rc)
      ensures a[p0..] == s0[p0..]
      ensures rc >= 0 ==> a[p1..] == b + s0[p0..] && a[..p1] == s0[..p1]
    {
    }
  }

  /** From buffer `s0` with `p0`, writing `b` in front led to `s1` with `p1`. */
  ghost predicate WroteAll(s0: bytes, p0: nat, s1: bytes, p1: nat, b: bytes) {
    p1 + |b| == p0 <= |s0| && s1 == s0[..p1] + b + s0[p0..]
  }

  /** Trying to write `b` in front ended with the return code `rc`: it went in exactly when there was room. */
  ghost predicate Wrote(s0: bytes, p0: nat, s1: bytes, p1: nat, b: bytes, rc: int) {
    && |s1| == |s0| && p1 <= p0 <= |s0| && s1[p0..] == s0[p0..]
    && (rc >= 0 <==> |b| <= p0)
    && (rc >= 0 ==> WroteAll(s0, p0, s1, p1, b))
    && (rc < 0 ==> rc == BUF_TOO_SMALL)
  }

  lemma WroteTwice(s0: bytes, p0: nat, s1: bytes, p1: nat, s2: bytes, p2: nat, b: bytes, c: bytes, rc: int)
    requires WroteAll(s0, p0, s1, p1, b)
    requires Wrote(s1, p1, s2, p2, c, rc)
    ensures Wrote(s0, p0, s2, p2, c + b, rc)
  {
    assert s2[p0..] == s2[p1..][p0 - p1..] && s1[p0..] == s1[p1..][p0 - p1..];
    assert s1[p1..] == b + s0[p0..];
    if rc >= 0 {
      assert s1[..p2] == s0[..p2];
    }
  }

  // ---------- trimming ----------

  /** `getLeadingWhitespace`: the number of zero bytes at the front. */
  method GetLeadingWhitespace(data: array<byte>) returns (n: nat)
    ensures n <= data.Length && forall i | 0 <= i < n :: data[i] == 0
    ensures n < data.Length ==> data[n] != 0
  {
    n := 0;
    while n < data.Length && data[n] == 0
      invariant n <= data.Length && forall i | 0 <= i < n :: data[i] == 0
    {
      n := n + 1;
    }
  }

  /**
   * `toPKCS7` once certificates and keys are in memory: generates backwards into a small buffer and trims its front.
   * The zeros in front are exactly what was never written, because the message starts with a non-zero tag and the
   * buffer has grown.
   */
  method ToPkcs7(env: Signing, info: Pkcs7Info) returns (rc: int, pkcs7: bytes)
    requires |info.crts| == |info.keys|
    requires Signed(env, info) ==> |MessageOf(env, info)| <= INT_MAX
    ensures rc == SUCCESS <==> Signed(env, info)
    ensures rc == SUCCESS ==> pkcs7 == MessageOf(env, info)
  {
    pkcs7 := [];
    var buff := new Buffer();
    rc := buff.SetPkcs7Oid(env, info);
    if rc != SUCCESS {
      return;
    }
    ghost var message := buff.Written();
    MessageIsLong(env, info);
    assert buff.start.Length >= |message| && buff.Clean();
    assert buff.start[buff.ptr] == message[0] != 0;
    var whiteSpace := GetLeadingWhitespace(buff.start);
    assert whiteSpace == buff.ptr;
    pkcs7 := buff.start[whiteSpace..];
  }

  lemma MessageIsLong(env: Signing, info: Pkcs7Info)
    requires |info.crts| == |info.keys| && Signed(env, info)
    ensures |MessageOf(env, info)| > INITIAL_SIZE && MessageOf(env, info)[0] == SEQUENCE
  {
  }
}
