/**
 * The PKCS7 parser: a cursor is advanced through the buffer; the certificates and the signers are collected in loops.
 * The library's readers of single values come first.
 */
module Pkcs7Parser {
  import opened Bytes
  import opened Platform
  import opened Der

  const OUT_OF_DATA := -0x60
  const UNEXPECTED_TAG := -0x62
  const INVALID_LENGTH := -0x64
  const LENGTH_MISMATCH := -0x66
  const INVALID_DATA := -0x68
  const INVALID_SERIAL := -0x2280

  const FEATURE_UNAVAILABLE := -0x8080
  const INVALID_FORMAT := -0x8100
  const INVALID_VERSION := -0x8180
  const INVALID_CONTENT_INFO := -0x8200
  const INVALID_ALG := -0x8280
  const INVALID_SIGNATURE := -0x8300
  const INVALID_SIGNER_INFO := -0x8380
  const BAD_INPUT_DATA := -0x8400

  const SUPPORTED_VERSION := 1
  const SIGNED_DATA_TYPE := 2
  const CONTEXT_2: byte := 0x82

  const PKCS7_ENVELOPED_DATA: bytes := [0x2a, 0x86, 0x48, 0x86, 0xf7, 0x0d, 0x01, 0x07, 0x03]
  const PKCS7_SIGNED_AND_ENVELOPED_DATA: bytes := [0x2a, 0x86, 0x48, 0x86, 0xf7, 0x0d, 0x01, 0x07, 0x04]
  const PKCS7_DIGESTED_DATA: bytes := [0x2a, 0x86, 0x48, 0x86, 0xf7, 0x0d, 0x01, 0x07, 0x05]
  const PKCS7_ENCRYPTED_DATA: bytes := [0x2a, 0x86, 0x48, 0x86, 0xf7, 0x0d, 0x01, 0x07, 0x06]

  /** Error codes are negative; the library's other results are 0 or an error. */
  type ErrorCode = i: int | i < 0 witness -1
  type Status = i: int | i <= 0

  /** The result of reading at a cursor: a value or an error code, and where the cursor was left. */
  datatype Parse<+T> = Ok(value: T, p: nat) | Err(rc: ErrorCode, p: nat) {
    predicate IsFailure() { Err? }
    function PropagateFailure<U>(): (r: Parse<U>)
      requires Err?
    {
      Err(rc, p)
    }
    function Extract(): (r: Parse<T>) { this }
    /** The caller's code is added to the library's. */
    function In(base: ErrorCode): (r: Parse<T>) {
      match this
      case Ok(_, _) => this
      case Err(e, q) => Err(base + e, q)
    }
  }

  datatype Crt = Crt(raw: bytes) | NoCrt(rc: ErrorCode)

  /** What the parser needs from the library: certificates, names, digest algorithms and public keys. */
  datatype Library = Library(
    /** `mbedtls_x509_crt_parse` of a buffer that starts with a certificate */
    crt: bytes -> Crt,
    /** `mbedtls_x509_get_name` of the content of a name */
    name: bytes -> Status,
    /** `mbedtls_oid_get_md_alg` */
    mdAlg: bytes -> Status,
    /** `mbedtls_pk_verify` with a certificate's key, for a digest algorithm, a digest, and a signature */
    pkVerify: (bytes, bytes, bytes, bytes) -> int)

  /** A certificate takes up some of the buffer it is read from. */
  ghost predicate Lawful(lib: Library) {
    forall b :: lib.crt(b).Crt? ==> 0 < |lib.crt(b).raw| <= |b|
  }

  // ---------- the library's readers ----------

  /** The number written in big-endian digits. */
  function FromBigEndian(b: bytes): (r: nat) {
    if b == [] then 0 else 0x100 * FromBigEndian(b[..|b| - 1]) + b[|b| - 1] as int
  }

  /** `mbedtls_asn1_get_len`: at most four length octets, and what they announce is there. */
  function GetLen(buf: bytes, p: nat, end: nat): (r: Parse<nat>)
    requires p <= end <= |buf|
    ensures p <= r.p <= end
    ensures r.Ok? ==> p < r.p && r.p + r.value <= end
  {
    if p == end then Err(OUT_OF_DATA, p)
    else
      var first := buf[p] as int;
      if 0x84 < first || first == 0x80 then Err(INVALID_LENGTH, p)
      else
        var digits := if first < 0x80 then 0 else first - 0x80;
        if end - p < 1 + digits then Err(OUT_OF_DATA, p)
        else
          var len := if digits == 0 then first else FromBigEndian(buf[p + 1..p + 1 + digits]);
          var q := p + 1 + digits;
          if len > end - q then Err(OUT_OF_DATA, q) else Ok(len, q)
  }

  /** `mbedtls_asn1_get_tag`: the length of a value with the expected tag; the cursor is left at its content. */
  function GetTag(buf: bytes, p: nat, end: nat, tag: byte): (r: Parse<nat>)
    requires p <= end <= |buf|
    ensures p <= r.p <= end
    ensures r.Ok? ==> p < r.p && r.p + r.value <= end && buf[p] == tag
  {
    if p == end then Err(OUT_OF_DATA, p)
    else if buf[p] != tag then Err(UNEXPECTED_TAG, p)
    else GetLen(buf, p + 1, end)
  }

  /** `mbedtls_asn1_get_int`: neither empty nor negative, and it fits an `int`. */
  function GetInt(buf: bytes, p: nat, end: nat): (r: Parse<nat>)
    requires p <= end <= |buf|
    ensures p <= r.p <= end
  {
    var t :- GetTag(buf, p, end, INTEGER);
    var digits := buf[t.p..t.p + t.value];
    if digits == [] || digits[0] >= 0x80 || FromBigEndian(digits) > INT_MAX then Err(INVALID_LENGTH, t.p)
    else Ok(FromBigEndian(digits), t.p + t.value)
  }

  /** `mbedtls_asn1_get_alg_null`: the identifier of an algorithm without parameters. */
  function GetAlgNull(buf: bytes, p: nat, end: nat): (r: Parse<bytes>)
    requires p <= end <= |buf|
    ensures p <= r.p <= end
  {
    var sequence :- GetTag(buf, p, end, SEQUENCE);
    if sequence.p == end then Err(OUT_OF_DATA, end)
    else
      var last := sequence.p + sequence.value;
      var oid :- GetTag(buf, sequence.p, last, OID);
      var q := oid.p + oid.value;
      if q == last then Ok(buf[oid.p..q], q)
      else
        var params :- GetLen(buf, q + 1, last);
        if params.p + params.value != last then Err(LENGTH_MISMATCH, params.p)
        else if (buf[q] != NULL && buf[q] != 0) || params.value != 0 then Err(INVALID_DATA, last)
        else Ok(buf[oid.p..q], last)
  }

  /** `mbedtls_x509_get_serial` */
  function GetSerial(buf: bytes, p: nat, end: nat): (r: Parse<bytes>)
    requires p <= end <= |buf|
    ensures p <= r.p <= end
  {
    if p == end then Err(INVALID_SERIAL + OUT_OF_DATA, p)
    else if buf[p] != CONTEXT_2 && buf[p] != INTEGER then Err(INVALID_SERIAL + UNEXPECTED_TAG, p)
    else
      var t :- GetLen(buf, p + 1, end).In(INVALID_SERIAL);
      Ok(buf[t.p..t.p + t.value], t.p + t.value)
  }

  // ---------- the parts of a message ----------

  /** `pkcs7_get_content_info_type`: the cursor is left at the start of the identifier. */
  function GetContentInfoType(buf: bytes, p: nat, end: nat): (r: Parse<bytes>)
    requires p <= end <= |buf|
    ensures p <= r.p <= end
    ensures r.Ok? ==> r.p + |r.value| <= end
  {
    var t :- GetTag(buf, p, end, SEQUENCE).In(INVALID_CONTENT_INFO);
    var oid :- GetTag(buf, t.p, end, OID).In(INVALID_CONTENT_INFO);
    Ok(buf[oid.p..oid.p + oid.value], oid.p)
  }

  /** `pkcs7_get_digest_algorithm_set`: the first algorithm of the set. */
  function GetDigestAlgorithmSet(buf: bytes, p: nat, end: nat): (r: Parse<bytes>)
    requires p <= end <= |buf|
    ensures p <= r.p <= end
  {
    var t :- GetTag(buf, p, end, SET).In(INVALID_ALG);
    GetAlgNull(buf, t.p, t.p + t.value).In(INVALID_ALG)
  }

  /** The issuer, with its header, and the serial number. */
  function GetIssuerAndSerial(lib: Library, buf: bytes, p: nat, end: nat): (r: Parse<(bytes, bytes)>)
    requires p <= end <= |buf|
    ensures p <= r.p <= end
  {
    var t :- GetTag(buf, p, end, SEQUENCE).In(INVALID_SIGNER_INFO);
    var name :- GetTag(buf, t.p, end, SEQUENCE).In(INVALID_SIGNER_INFO);
    var q := name.p + name.value;
    var rc := lib.name(buf[name.p..q]);
    if rc != 0 then Err(rc, name.p)
    else
      var serial :- GetSerial(buf, q, end);
      Ok((buf[t.p..q], serial.value), serial.p)
  }

  /** The two algorithms and the signature of a signer. */
  function GetAlgorithmsAndSignature(buf: bytes, p: nat, end: nat): (r: Parse<(bytes, bytes, bytes)>)
    requires p <= end <= |buf|
  {
    var digestAlg :- GetAlgNull(buf, p, end).In(INVALID_ALG);
    var sigAlg :- GetAlgNull(buf, digestAlg.p, end).In(INVALID_ALG);
    var sig :- GetTag(buf, sigAlg.p, end, OCTET_STRING).In(INVALID_SIGNATURE);
    Ok((digestAlg.value, sigAlg.value, buf[sig.p..sig.p + sig.value]), sig.p)
  }

  /** `pkcs7_get_signer_info`: the cursor is left at the end of the value, whatever follows the signature in it. */
  function GetSignerInfo(lib: Library, buf: bytes, p: nat, end: nat): (r: Parse<Signer>)
    requires p <= end <= |buf|
    ensures r.Ok? ==> p < r.p <= end
  {
    var t :- GetTag(buf, p, end, SEQUENCE).In(INVALID_SIGNER_INFO);
    var last := t.p + t.value;
    var version :- GetInt(buf, t.p, last).In(INVALID_SIGNER_INFO);
    var id :- GetIssuerAndSerial(lib, buf, version.p, last);
    var rest :- GetAlgorithmsAndSignature(buf, id.p, last);
    Ok(Signer(version.value, id.value.0, id.value.1, rest.value.0, rest.value.1, rest.value.2), last)
  }

  /** One signer after the other up to `end`. */
  function SignersIn(lib: Library, buf: bytes, p: nat, end: nat): (r: Parse<seq<Signer>>)
    requires p <= end <= |buf|
    ensures r.Ok? ==> r.p == end
    decreases end - p
  {
    if p == end then Ok([], end)
    else
      var first :- GetSignerInfo(lib, buf, p, end);
      var rest :- SignersIn(lib, buf, first.p, end);
      Ok([first.value] + rest.value, end)
  }

  /** `pkcs7_get_signers_info_set` */
  method GetSignersInfoSet(lib: Library, buf: bytes, p: nat, end: nat) returns (r: Parse<seq<Signer>>)
    requires p <= end <= |buf|
    ensures var t := GetTag(buf, p, end, SET).In(INVALID_SIGNER_INFO);
            r == if t.Ok? then SignersIn(lib, buf, t.p, t.p + t.value) else t.PropagateFailure()
  {
    hide GetTag;
    hide GetSignerInfo;
    var t := GetTag(buf, p, end, SET).In(INVALID_SIGNER_INFO);
    if t.Err? {
      return t.PropagateFailure();
    }
    var endSet := t.p + t.value;
    if t.value == 0 {
      return Ok([], t.p);
    }
    var signer := GetSignerInfo(lib, buf, t.p, endSet);
    if signer.Err? {
      return signer.PropagateFailure();
    }
    var signers, q := [signer.value], signer.p;
    while q != endSet
      invariant t.p < q <= endSet
      invariant SignersIn(lib, buf, t.p, endSet)
             == match SignersIn(lib, buf, q, endSet)
                case Ok(rest, last) => Ok(signers + rest, last)
                case Err(rc, at) => Err(rc, at)
      decreases endSet - q
    {
      signer := GetSignerInfo(lib, buf, q, endSet);
      if signer.Err? {
        return signer.PropagateFailure();
      }
      ghost var rest := SignersIn(lib, buf, signer.p, endSet);
      if rest.Ok? {
        assert signers + ([signer.value] + rest.value) == signers + [signer.value] + rest.value;
      }
      signers, q := signers + [signer.value], signer.p;
    }
    assert signers + [] == signers;
    r := Ok(signers, q);
  }

  datatype CrtChain = Chain(certs: seq<bytes>) | Broken(rc: ErrorCode)

  /** The certificates that follow each other to the end of the buffer. */
  function CertificatesIn(lib: Library, b: bytes): (r: CrtChain)
    requires Lawful(lib)
  {
    match lib.crt(b)
    case NoCrt(rc) => Broken(rc)
    case Crt(raw) =>
      if |raw| == |b| then Chain([raw])
      else
        match CertificatesIn(lib, b[|raw|..])
        case Chain(rest) => Chain([raw] + rest)
        case Broken(rc) => Broken(rc)
  }

  /** `pkcs7_get_certificates` */
  method GetCertificates(lib: Library, b: bytes) returns (r: CrtChain)
    requires Lawful(lib)
    ensures r == CertificatesIn(lib, b)
  {
    var crt := lib.crt(b);
    if crt.NoCrt? {
      return Broken(crt.rc);
    }
    var certs, offset := [crt.raw], |crt.raw|;
    while offset < |b|
      invariant offset <= |b|
      invariant CertificatesIn(lib, b)
             == if offset == |b| then Chain(certs)
                else match CertificatesIn(lib, b[offset..])
                     case Chain(rest) => Chain(certs + rest)
                     case Broken(rc) => Broken(rc)
    {
      var next := lib.crt(b[offset..]);
      if next.NoCrt? {
        return Broken(next.rc);
      }
      assert b[offset..][|next.raw|..] == b[offset + |next.raw|..];
      ghost var chain := CertificatesIn(lib, b[offset + |next.raw|..]);
      if offset + |next.raw| < |b| && chain.Chain? {
        assert certs + ([next.raw] + chain.certs) == certs + [next.raw] + chain.certs;
      }
      certs, offset := certs + [next.raw], offset + |next.raw|;
    }
    r := Chain(certs);
  }

  datatype Parsed = Parsed(message: SignedData) | Failed(rc: ErrorCode)

  /** Version, digest algorithm and content type; the cursor is left after the content type. */
  function GetSignedDataHeader(lib: Library, buf: bytes, p: nat, end: nat): (r: Parse<bytes>)
    requires p <= end <= |buf|
    ensures r.Ok? ==> p <= r.p <= end
  {
    var t :- GetTag(buf, p, end, SEQUENCE).In(INVALID_FORMAT);
    var version :- GetInt(buf, t.p, end).In(INVALID_VERSION);
    if version.value != SUPPORTED_VERSION then Err(INVALID_VERSION, version.p)
    else
      var digestAlg :- GetDigestAlgorithmSet(buf, version.p, end);
      if lib.mdAlg(digestAlg.value) != 0 then Err(INVALID_ALG + lib.mdAlg(digestAlg.value), digestAlg.p)
      else
        var content :- GetContentInfoType(buf, digestAlg.p, end);
        if content.value != PKCS7_DATA then Err(INVALID_CONTENT_INFO, content.p)
        else Ok(digestAlg.value, content.p + |content.value|)
  }

  /** The set of signers, and the message they complete. */
  function WithSigners(lib: Library, digestAlg: bytes, certs: seq<bytes>, buf: bytes, p: nat, end: nat): (r: Parsed)
    requires p <= end <= |buf|
  {
    match GetTag(buf, p, end, SET).In(INVALID_SIGNER_INFO)
    case Err(rc, _) => Failed(rc)
    case Ok(len, q) =>
      match SignersIn(lib, buf, q, q + len)
      case Err(rc, _) => Failed(rc)
      case Ok(signers, _) => Parsed(SignedData(SUPPORTED_VERSION, digestAlg, certs, signers))
  }

  /** The signed data in `buf[p..end]`. A [0] value need not be there, but then a cursor moved by the try stays moved. */
  function SignedDataIn(lib: Library, buf: bytes, p: nat, end: nat): (r: Parsed)
    requires p <= end <= |buf| && Lawful(lib)
  {
    match GetSignedDataHeader(lib, buf, p, end)
    case Err(rc, _) => Failed(rc)
    case Ok(digestAlg, q) =>
      match GetTag(buf, q, end, CONTEXT)
      case Err(_, moved) => WithSigners(lib, digestAlg, [], buf, moved, end)
      case Ok(len, at) =>
        match CertificatesIn(lib, buf[at..at + len])
        case Broken(rc) => Failed(rc)
        case Chain(certs) => WithSigners(lib, digestAlg, certs, buf, at + len, end)
  }

  /** `pkcs7_get_signed_data` */
  method GetSignedData(lib: Library, buf: bytes, p: nat, end: nat) returns (r: Parsed)
    requires p <= end <= |buf| && Lawful(lib)
    ensures r == SignedDataIn(lib, buf, p, end)
  {
    hide Lawful;
    hide GetTag;
    hide GetSignedDataHeader;
    hide SignersIn;
    hide CertificatesIn;
    var header := GetSignedDataHeader(lib, buf, p, end);
    if header.Err? {
      return Failed(header.rc);
    }
    var certs := [];
    var next := GetTag(buf, header.p, end, CONTEXT);
    var q := next.p;
    if next.Ok? {
      var chain := GetCertificates(lib, buf[q..q + next.value]);
      if chain.Broken? {
        return Failed(chain.rc);
      }
      certs, q := chain.certs, q + next.value;
    }
    var signers := GetSignersInfoSet(lib, buf, q, end);
    if signers.Err? {
      return Failed(signers.rc);
    }
    r := Parsed(SignedData(SUPPORTED_VERSION, header.value, certs, signers.value));
  }

  /** What the first identifier leads to: an error, or the cursor from which the signed data is sought. */
  function GetContentType(buf: bytes): (r: Parse<()>)
    ensures r.Ok? ==> r.p <= |buf|
  {
    match GetContentInfoType(buf, 0, |buf|)
    // no identifier: the signed data is sought where the cursor was left
    case Err(_, p) => Ok((), p)
    case Ok(oid, p) =>
      if oid in {PKCS7_DATA, PKCS7_ENCRYPTED_DATA, PKCS7_ENVELOPED_DATA, PKCS7_SIGNED_AND_ENVELOPED_DATA, PKCS7_DIGESTED_DATA}
      then Err(FEATURE_UNAVAILABLE, p)
      else if oid != PKCS7_SIGNED_DATA then Err(BAD_INPUT_DATA, p)
      else Ok((), p + |oid|)
  }

  function ParseResult(lib: Library, buf: bytes): (r: Parsed)
    requires Lawful(lib)
  {
    match GetContentType(buf)
    case Err(rc, _) => Failed(rc)
    case Ok(_, p) =>
      match GetTag(buf, p, |buf|, CONTEXT).In(INVALID_FORMAT)
      case Err(rc, _) => Failed(rc)
      case Ok(len, q) => SignedDataIn(lib, buf, q, q + len)
  }

  /** `mbedtls_pkcs7_parse_der`: the type of signed data, or an error that cannot be mistaken for it. */
  method ParseDer(lib: Library, buf: bytes) returns (rc: int, message: Option<SignedData>)
    requires Lawful(lib)
    ensures rc == SIGNED_DATA_TYPE <==> ParseResult(lib, buf).Parsed?
    ensures rc == SIGNED_DATA_TYPE ==> message == Some(ParseResult(lib, buf).message)
    ensures rc != SIGNED_DATA_TYPE ==> ParseResult(lib, buf).Failed? && ParseResult(lib, buf).rc == rc
  {
    hide Lawful;
    hide GetTag;
    hide GetContentType;
    hide SignedDataIn;
    message := None;
    var start := GetContentType(buf);
    if start.Err? {
      return start.rc, message;
    }
    var next := GetTag(buf, start.p, |buf|, CONTEXT).In(INVALID_FORMAT);
    if next.Err? {
      return next.rc, message;
    }
    var signedData := GetSignedData(lib, buf, next.p, next.p + next.value);
    if signedData.Failed? {
      return signedData.rc, message;
    }
    rc, message := SIGNED_DATA_TYPE, Some(signedData.message);
  }

  // ---------- verification ----------

  /** Some signature of the message was made over the digest with the certificate's key. */
  predicate SomeSignatureVerifies(lib: Library, d: SignedData, cert: bytes, digest: bytes) {
    exists i | 0 <= i < |d.signers| :: lib.pkVerify(cert, d.digestAlg, digest, d.signers[i].sig) == 0
  }

  /** The verdict, and the code of a failure: the algorithm's, or the last signer's. */
  function HashVerifyResult(lib: Library, d: SignedData, cert: bytes, digest: bytes): (r: int) {
    if lib.mdAlg(d.digestAlg) != 0 then INVALID_ALG + lib.mdAlg(d.digestAlg)
    else if d.signers == [] || SomeSignatureVerifies(lib, d, cert, digest) then 0
    else lib.pkVerify(cert, d.digestAlg, digest, d.signers[|d.signers| - 1].sig)
  }

  /**
   * `mbedtls_pkcs7_signed_hash_verify`: the signers are tried in turn. A message without signers keeps the 0 of the
   * algorithm lookup, so that it passes for any certificate and any digest.
   */
  method SignedHashVerify(lib: Library, d: SignedData, cert: bytes, digest: bytes) returns (rc: int)
    ensures rc == HashVerifyResult(lib, d, cert, digest)
    ensures rc == 0 <==> lib.mdAlg(d.digestAlg) == 0 && (d.signers == [] || SomeSignatureVerifies(lib, d, cert, digest))
  {
    var md: int := lib.mdAlg(d.digestAlg);
    if md != 0 {
      return INVALID_ALG + md;
    }
    rc := md;
    var i := 0;
    while i < |d.signers|
      invariant 0 <= i <= |d.signers|
      invariant forall j | 0 <= j < i :: lib.pkVerify(cert, d.digestAlg, digest, d.signers[j].sig) != 0
      invariant rc == if i == 0 then 0 else lib.pkVerify(cert, d.digestAlg, digest, d.signers[i - 1].sig)
    {
      rc := lib.pkVerify(cert, d.digestAlg, digest, d.signers[i].sig);
      if rc == 0 {
        return;
      }
      i := i + 1;
    }
  }

  /** "0 means that some signature verifies" is true exactly of messages with signers (or an unknown algorithm). */
  lemma ZeroMeansSomeSignature(lib: Library, d: SignedData, cert: bytes, digest: bytes)
    ensures (HashVerifyResult(lib, d, cert, digest) == 0 ==> SomeSignatureVerifies(lib, d, cert, digest))
       <==> d.signers != [] || lib.mdAlg(d.digestAlg) != 0
  {
    if d.signers != [] && lib.pkVerify(cert, d.digestAlg, digest, d.signers[|d.signers| - 1].sig) == 0 {
      assert SomeSignatureVerifies(lib, d, cert, digest);
    }
  }
}
