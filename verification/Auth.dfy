/**
 * The EFI_VARIABLE_AUTHENTICATION_2 container (section 8.2.2 of UEFI 2.8): a 40-byte header, the PKCS7 message, and
 * the new value. Four pieces of code find the point where the new value starts.
 */
module Auth {
  import opened Bytes
  import opened Codes
  import opened Platform
  import opened Timestamp
  import opened Esl
  import opened EslValidate

  const AUTH_HEADER := 40
  const CERT_HEADER := 24
  const PKCS7_GUID: Guid := [0x9d, 0xd2, 0xaf, 0x4a, 0xdf, 0x68, 0xee, 0x49, 0x8a, 0xa9, 0x34, 0x7d, 0x37, 0x56, 0x65, 0xa7]

  /** The `dw_length` field. */
  function DwLength(b: bytes): (n: nat)
    requires |b| >= 20
    ensures n < U32_LIMIT
  {
    FromLe32(b, 16)
  }

  /** `get_pkcs7_len` in 64-bit unsigned arithmetic: a length below 24 wraps. */
  function Pkcs7Len(b: bytes): (n: nat)
    requires |b| >= 20
    ensures n < U64_LIMIT
  {
    (DwLength(b) - CERT_HEADER) % U64_LIMIT
  }

  // ---------- the engine's split ----------

  /** `get_auth_descriptor2`: the size of the descriptor, or a negative code. */
  function DescriptorSize(b: bytes): (r: int) {
    if |b| < AUTH_HEADER then OPAL_PARAMETER
    else if Pkcs7Len(b) > |b| then OPAL_PARAMETER
    else if AUTH_HEADER + Pkcs7Len(b) > INT_MAX then OPAL_NO_MEM
    else AUTH_HEADER + Pkcs7Len(b)
  }

  /** `get_auth_descriptor2`: a copy of the descriptor, which the caller must still compare with the buffer's size. */
  method GetAuthDescriptor2(m: Platform, b: bytes) returns (size: int, descriptor: bytes)
    ensures size == DescriptorSize(b)
    ensures 0 <= size ==> AUTH_HEADER <= size == |descriptor|
    ensures 0 <= size <= |b| ==> descriptor == b[..size]
  {
    descriptor := [];
    if |b| < AUTH_HEADER {
      return OPAL_PARAMETER, descriptor;
    }
    var len := Pkcs7Len(b);
    if len > |b| {
      return OPAL_PARAMETER, descriptor;
    }
    size := AUTH_HEADER + len;
    if size > INT_MAX {
      return OPAL_NO_MEM, descriptor;
    }
    descriptor := m.Copy(b, 0, size);
  }

  /** The descriptor and the new value are both inside the buffer. */
  predicate Splits(b: bytes) { 0 <= DescriptorSize(b) <= |b| }

  function Message(b: bytes): (r: bytes)
    requires Splits(b)
  {
    b[AUTH_HEADER..DescriptorSize(b)]
  }

  function NewValue(b: Blob): (r: Blob)
    requires Splits(b)
  {
    b[DescriptorSize(b)..]
  }

  function TimeOf(b: bytes): (r: EfiTime)
    requires |b| >= TIME_SIZE
  {
    b[..TIME_SIZE]
  }

  // ---------- the tool's validation ----------

  function AuthResult(m: Platform, key: bytes, b: bytes): (r: int) {
    if |b| < AUTH_HEADER then AUTH_FAIL
    else
      var authSize := DwLength(b) + TIME_SIZE;
      if authSize > |b| then AUTH_FAIL
      else if b[24..40] != PKCS7_GUID then AUTH_FAIL
      // the length, read as a signed number, must be positive
      else if Pkcs7Len(b) == 0 || Pkcs7Len(b) >= U64_LIMIT / 2 || Pkcs7Len(b) > authSize then AUTH_FAIL
      else
        assert AUTH_HEADER + Pkcs7Len(b) == authSize;
        var rc := m.validatePkcs7(b[AUTH_HEADER..AUTH_HEADER + Pkcs7Len(b)]);
        if rc != SUCCESS then rc
        else if authSize == |b| then SUCCESS
        else EslResult(m, key, b[authSize..])
  }

  /** `validateAuth` */
  method ValidateAuth(m: Platform, b: Blob, key: bytes) returns (rc: int)
    ensures rc == AuthResult(m, key, b)
  {
    if |b| < AUTH_HEADER {
      return AUTH_FAIL;
    }
    var authSize := DwLength(b) + TIME_SIZE;
    if authSize <= 0 || authSize > |b| {
      return AUTH_FAIL;
    }
    if b[24..40] != PKCS7_GUID {
      return AUTH_FAIL;
    }
    var pkcs7Size := Pkcs7Len(b);
    if pkcs7Size == 0 || pkcs7Size >= U64_LIMIT / 2 || pkcs7Size > authSize {
      return AUTH_FAIL;
    }
    rc := m.validatePkcs7(b[AUTH_HEADER..AUTH_HEADER + pkcs7Size]);
    if rc != SUCCESS {
      return;
    }
    if authSize != |b| {
      var payloads, offset;
      rc, payloads, offset := ValidateEsl(m, key, b[authSize..]);
    }
  }

  // ---------- extraction and generation ----------

  datatype Extraction = Extracted(esl: bytes) | Refused(rc: int)

  /** The length field as `authToESL` reads it, without asking whether the file is that long. */
  function ReadLength(m: Platform, b: bytes): (n: nat)
    ensures n < U32_LIMIT
    ensures |b| >= 20 ==> n == DwLength(b)
  {
    FromLe32(m.Copy(b, 16, 4), 0)
  }

  /** What `authToESL` finds by the length field alone. */
  function ExtractionOf(m: Platform, b: bytes): (r: Extraction) {
    var length := ReadLength(m, b);
    if length == 0 || length > |b| then Refused(AUTH_FAIL)
    else if length <= CERT_HEADER then Refused(PKCS7_FAIL)
    else if TIME_SIZE + length > |b| then Refused(ESL_FAIL)
    else Extracted(b[TIME_SIZE + length..])
  }

  /** `authToESL` */
  method AuthToEsl(m: Platform, b: bytes) returns (rc: int, out: bytes)
    ensures rc == SUCCESS ==> ExtractionOf(m, b) == Extracted(out)
    ensures rc != SUCCESS ==> ExtractionOf(m, b) == Refused(rc)
    ensures |b| <= AUTH_HEADER ==> rc != SUCCESS
  {
    out := [];
    var length := ReadLength(m, b);
    if length <= 0 || length > |b| {
      return AUTH_FAIL, out;
    }
    var pkcs7Size := (length - CERT_HEADER) % U64_LIMIT;
    if pkcs7Size <= 0 || pkcs7Size > length {
      return PKCS7_FAIL, out;
    }
    var authBufferSize := AUTH_HEADER + pkcs7Size;
    if authBufferSize > |b| {
      return ESL_FAIL, out;
    }
    var offset := TIME_SIZE + length;
    out := b[offset..];
    rc := SUCCESS;
  }

  /** The auth file of a message and a value: revision 2 and type 0xf10e are stored big-endian. */
  function EncodeAuth(t: EfiTime, message: bytes, esl: bytes): (r: bytes)
    requires CERT_HEADER + |message| < U32_LIMIT
  {
    t + Le32(CERT_HEADER + |message|) + [0x00, 0x02] + [0xf1, 0x0e] + PKCS7_GUID + message + esl
  }

  /** The part of `toAuth` after the message is made: header, message and value are copied one after the other. */
  method ToAuth(t: EfiTime, message: bytes, esl: bytes) returns (rc: int, out: array<byte>)
    requires CERT_HEADER + |message| < U32_LIMIT
    ensures fresh(out) && rc == SUCCESS
    ensures out[..] == EncodeAuth(t, message, esl)
  {
    var header := t + Le32(CERT_HEADER + |message|) + [0x00, 0x02] + [0xf1, 0x0e] + PKCS7_GUID;
    out := new byte[|message| + AUTH_HEADER + |esl|](_ => 0);
    var offset := 0;
    Memcpy(out, offset, header);
    offset := offset + AUTH_HEADER;
    Memcpy(out, offset, message);
    assert out[..offset + |message|] == header + message;
    offset := offset + |message|;
    Memcpy(out, offset, esl);
    assert out[..] == header + message + esl;
    rc := SUCCESS;
  }

  /** Reading back what a generated file holds. */
  lemma EncodedAuth(t: EfiTime, message: bytes, esl: bytes)
    requires AUTH_HEADER + |message| + |esl| <= INT_MAX
    ensures var b := EncodeAuth(t, message, esl);
            && DwLength(b) == CERT_HEADER + |message| && b[24..40] == PKCS7_GUID
            && Splits(b) && DescriptorSize(b) == AUTH_HEADER + |message|
            && TimeOf(b) == t && Message(b) == message && NewValue(b) == esl
  {
    var b := EncodeAuth(t, message, esl);
    assert b[16..20] == Le32(CERT_HEADER + |message|);
    HasLe32(b, 16, CERT_HEADER + |message|);
    assert Pkcs7Len(b) == |message|;
  }

  // ---------- one split point ----------

  /** A `dw_length` below the certificate header wraps to a length every reader refuses. */
  lemma WrappedLengthIsRefused(m: Platform, key: bytes, b: bytes)
    requires |b| >= AUTH_HEADER && |b| <= INT_MAX && DwLength(b) < CERT_HEADER
    ensures Pkcs7Len(b) > |b| && Pkcs7Len(b) >= U64_LIMIT / 2
    ensures !Splits(b) && AuthResult(m, key, b) == AUTH_FAIL
  {
  }

  /** On any buffer the tool validates, the engine, the validator, the extractor and the length field agree. */
  lemma OneSplitPoint(m: Platform, key: bytes, b: Blob)
    requires AuthResult(m, key, b) == SUCCESS
    ensures Splits(b)
    ensures DescriptorSize(b) == DwLength(b) + TIME_SIZE == AUTH_HEADER + Pkcs7Len(b)
    ensures AUTH_HEADER < DescriptorSize(b) <= |b|
    ensures ExtractionOf(m, b) == Extracted(NewValue(b))
    ensures NewValue(b) == [] || EslResult(m, key, NewValue(b)) == SUCCESS
    ensures b[24..40] == PKCS7_GUID && m.validatePkcs7(Message(b)) == SUCCESS
  {
    hide EslResult;
    ValidatedLength(m, key, b);
    hide AuthResult;
  }

  /** The length field of a validated file covers more than the certificate header and stays within the file. */
  lemma ValidatedLength(m: Platform, key: bytes, b: Blob)
    requires AuthResult(m, key, b) == SUCCESS
    ensures |b| >= AUTH_HEADER && CERT_HEADER < DwLength(b) && Pkcs7Len(b) == DwLength(b) - CERT_HEADER
    ensures DwLength(b) + TIME_SIZE <= |b|
    ensures DwLength(b) + TIME_SIZE == |b| || EslResult(m, key, b[DwLength(b) + TIME_SIZE..]) == SUCCESS
    ensures b[24..40] == PKCS7_GUID && m.validatePkcs7(b[AUTH_HEADER..DwLength(b) + TIME_SIZE]) == SUCCESS
  {
    hide EslResult;
  }

  /** Extracting from a generated file gives back the value exactly when the message is not empty. */
  lemma ExtractionOfEncoded(m: Platform, t: EfiTime, message: bytes, esl: bytes)
    requires CERT_HEADER + |message| < U32_LIMIT
    ensures ExtractionOf(m, EncodeAuth(t, message, esl))
         == if message != [] then Extracted(esl) else Refused(PKCS7_FAIL)
  {
    var b := EncodeAuth(t, message, esl);
    assert b[16..20] == Le32(CERT_HEADER + |message|);
    HasLe32(b, 16, CERT_HEADER + |message|);
  }

  // ---------- the verdicts, from the bytes ----------

  /** The layout of a generated file, position by position. */
  lemma FileLayout(t: EfiTime, message: bytes, esl: bytes)
    requires CERT_HEADER + |message| < U32_LIMIT
    ensures var b, n := EncodeAuth(t, message, esl), 24 + |message|;
            && |b| == 40 + |message| + |esl|
            && b[..16] == t
            && b[16] as int == n % 0x100 && b[17] as int == n / 0x100 % 0x100
            && b[18] as int == n / 0x1_0000 % 0x100 && b[19] as int == n / 0x100_0000
            && b[20..24] == [0x00, 0x02, 0xf1, 0x0e]
            && b[24..40] == [0x9d, 0xd2, 0xaf, 0x4a, 0xdf, 0x68, 0xee, 0x49, 0x8a, 0xa9, 0x34, 0x7d, 0x37, 0x56, 0x65, 0xa7]
            && b[40..40 + |message|] == message
            && b[40 + |message|..] == esl
  {
    var b, n := EncodeAuth(t, message, esl), 24 + |message|;
    LowestIsLeast(Le32(n), 0);
    hide Le32;
    assert b[16..20] == Le32(n);
    assert forall i | 0 <= i < 4 :: b[16 + i] == b[16..20][i];
  }

  /** The engine splits exactly the files whose length field covers the certificate header and lies in the file. */
  lemma SplitsExactly(b: Blob)
    ensures Splits(b) <==> |b| >= 40 && 24 <= DwLength(b) && 16 + DwLength(b) <= |b|
    ensures Splits(b) ==>
              && DescriptorSize(b) == 16 + DwLength(b)
              && Message(b) == b[40..16 + DwLength(b)] && NewValue(b) == b[16 + DwLength(b)..] && TimeOf(b) == b[..16]
  {
    hide DwLength;
  }

  /**
   * The tool validates exactly the files with a message of the PKCS7 type that is itself valid, inside the file, and
   * followed by nothing or by a valid value.
   */
  lemma ValidatedExactly(m: Platform, key: bytes, b: Blob)
    ensures AuthResult(m, key, b) == SUCCESS
       <==> && |b| >= 40 && 24 < DwLength(b) && 16 + DwLength(b) <= |b|
            && b[24..40] == PKCS7_GUID
            && m.validatePkcs7(b[40..16 + DwLength(b)]) == SUCCESS
            && (16 + DwLength(b) == |b| || EslResult(m, key, b[16 + DwLength(b)..]) == SUCCESS)
  {
    hide DwLength;
    hide EslResult;
  }

  /** A generated file passes exactly when its message is not empty and valid and its value is empty or valid. */
  lemma GeneratedIsValidExactly(m: Platform, key: bytes, t: EfiTime, message: bytes, esl: bytes)
    requires AUTH_HEADER + |message| + |esl| <= INT_MAX
    ensures AuthResult(m, key, EncodeAuth(t, message, esl)) == SUCCESS
       <==> message != [] && m.validatePkcs7(message) == SUCCESS && (esl == [] || EslResult(m, key, esl) == SUCCESS)
  {
    var b := EncodeAuth(t, message, esl);
    EncodedAuth(t, message, esl);
    FileLayout(t, message, esl);
    ValidatedExactly(m, key, b);
    hide EncodeAuth;
    hide DwLength;
    hide AuthResult;
    hide EslResult;
  }

  /** Extraction succeeds exactly on the files whose length field covers more than the certificate header and lies in the file. */
  lemma ExtractsExactly(m: Platform, b: bytes)
    requires |b| >= 20
    ensures ExtractionOf(m, b) == if 24 < DwLength(b) && 16 + DwLength(b) <= |b| then Extracted(b[16 + DwLength(b)..])
                                  else if DwLength(b) == 0 || DwLength(b) > |b| then Refused(AUTH_FAIL)
                                  else if DwLength(b) <= 24 then Refused(PKCS7_FAIL) else Refused(ESL_FAIL)
  {
    hide DwLength;
  }
}
