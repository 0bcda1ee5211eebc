/** EFI signature lists (section 32.4.1 of UEFI 2.8): layout, extraction of the payload, and generation. */
module Esl {
  import opened Bytes
  import opened Codes
  import opened Platform

  const ESL_HEADER := 28
  const UUID_SIZE := 16

  type Guid = g: bytes | |g| == UUID_SIZE witness Zeros(UUID_SIZE)

  const X509_GUID: Guid := [0xa1, 0x59, 0xc0, 0xa5, 0xe4, 0x94, 0xa7, 0x4a, 0x87, 0xb5, 0xab, 0x15, 0x5c, 0x2b, 0xf0, 0x72]
  const SHA1_GUID: Guid := [0x12, 0xa5, 0x6c, 0x82, 0x10, 0xcf, 0xc9, 0x4a, 0xb1, 0x87, 0xbe, 0x01, 0x49, 0x66, 0x31, 0xbd]
  const SHA224_GUID: Guid := [0x33, 0x52, 0x6e, 0x0b, 0x5c, 0xa6, 0xc9, 0x44, 0x94, 0x07, 0xd9, 0xab, 0x83, 0xbf, 0xc8, 0xbd]
  const SHA256_GUID: Guid := [0x26, 0x16, 0xc4, 0xc1, 0x4c, 0x50, 0x92, 0x40, 0xac, 0xa9, 0x41, 0xf9, 0x36, 0x93, 0x43, 0x28]
  const SHA384_GUID: Guid := [0x07, 0x53, 0x3e, 0xff, 0xd0, 0x9f, 0xc9, 0x48, 0x85, 0xf1, 0x8a, 0xd5, 0x6c, 0x70, 0x1e, 0x01]
  const SHA512_GUID: Guid := [0xae, 0x0f, 0x3e, 0x09, 0xc4, 0xa6, 0x50, 0x4f, 0x9f, 0x1b, 0xd4, 0x1e, 0x2b, 0x89, 0xc1, 0x9a]

  // ---------- header fields ----------

  function SignatureType(b: bytes): (r: Guid)
    requires |b| >= ESL_HEADER
  {
    b[..UUID_SIZE]
  }

  function SignatureListSize(b: bytes): (n: nat)
    requires |b| >= ESL_HEADER
    ensures n < U32_LIMIT
  {
    FromLe32(b, 16)
  }

  function SignatureHeaderSize(b: bytes): (n: nat)
    requires |b| >= ESL_HEADER
    ensures n < U32_LIMIT
  {
    FromLe32(b, 20)
  }

  function SignatureSize(b: bytes): (n: nat)
    requires |b| >= ESL_HEADER
    ensures n < U32_LIMIT
  {
    FromLe32(b, 24)
  }

  /** The list size as the `int` the walks step by. */
  function Stride(b: bytes): (r: int)
    requires |b| >= ESL_HEADER
  {
    ToInt32(SignatureListSize(b))
  }

  // ---------- payload ----------

  datatype Payload = Found(data: bytes) | Failed(rc: int)

  function PayloadOffset(b: bytes): (r: nat)
    requires |b| >= ESL_HEADER
  {
    ESL_HEADER + SignatureHeaderSize(b) + UUID_SIZE
  }

  /**
   * `get_esl_cert` of the update engine on a buffer of which `avail` bytes remain. A signature size below the
   * owner's 16 bytes wraps to a size no allocation can satisfy; one of 2 GiB or more comes back negative.
   */
  function EslCert(m: Platform, buf: bytes, avail: nat): (p: Payload)
    requires ESL_HEADER <= avail <= |buf|
    ensures p.Failed? ==> p.rc < 0
  {
    if PayloadOffset(buf) > avail then Failed(OPAL_PARAMETER)
    else if SignatureSize(buf) < UUID_SIZE then Failed(OPAL_NO_MEM)
    else
      var size := SignatureSize(buf) - UUID_SIZE;
      if size > INT_MAX then Failed(ToInt32(size)) else Found(m.Copy(buf, PayloadOffset(buf), size))
  }

  /** `validate_hash`: a digest of the length its type says. */
  predicate ValidateHash(t: Guid, size: nat) {
    || (t == SHA1_GUID && size == 20)
    || (t == SHA224_GUID && size == 28)
    || (t == SHA256_GUID && size == 32)
    || (t == SHA384_GUID && size == 48)
    || (t == SHA512_GUID && size == 64)
  }

  // ---------- generation ----------

  const MAX_PAYLOAD := INT_MAX - ESL_HEADER - UUID_SIZE

  /** Data whose list has a size that fits an `int`. */
  type ItemData = b: bytes | |b| <= MAX_PAYLOAD witness []

  /** What a list of one signature holds: its type and its payload. */
  datatype Item = Item(sigType: Guid, data: ItemData)

  /** The list of one signature with an all-zero owner and no signature header. */
  function Encode(item: Item): (b: bytes)
    ensures |b| == ESL_HEADER + UUID_SIZE + |item.data|
  {
    item.sigType
    + Le32(ESL_HEADER + UUID_SIZE + |item.data|) + Le32(0) + Le32(|item.data| + UUID_SIZE)
    + Zeros(UUID_SIZE)
    + item.data
  }

  /** Reading back the header of a buffer that starts with an encoded item. */
  lemma EncodedHeader(item: Item, rest: bytes)
    ensures var b := Encode(item) + rest;
            && SignatureType(b) == item.sigType
            && SignatureListSize(b) == Stride(b) == |Encode(item)|
            && SignatureHeaderSize(b) == 0
            && SignatureSize(b) == |item.data| + UUID_SIZE
            && b[ESL_HEADER + UUID_SIZE..][..|item.data|] == item.data
            && b[|Encode(item)|..] == rest
  {
    var b := Encode(item) + rest;
    var n := ESL_HEADER + UUID_SIZE + |item.data|;
    assert b[16..20] == Le32(n) && b[20..24] == Le32(0) && b[24..28] == Le32(|item.data| + UUID_SIZE);
    HasLe32(b, 16, n);
    HasLe32(b, 20, 0);
    HasLe32(b, 24, |item.data| + UUID_SIZE);
  }

  /** `toESL`: fills a zeroed buffer with the header and then, past the owner, the data. */
  method ToEsl(data: ItemData, sigType: Guid) returns (rc: int, outEsl: array<byte>)
    ensures fresh(outEsl) && rc == SUCCESS
    ensures outEsl[..] == Encode(Item(sigType, data))
  {
    var listSize := ESL_HEADER + UUID_SIZE + |data|;
    outEsl := new byte[listSize](_ => 0);
    var offset := 0;
    Memcpy(outEsl, offset, sigType + Le32(listSize) + Le32(0) + Le32(|data| + UUID_SIZE));
    offset := offset + ESL_HEADER;
    offset := offset + UUID_SIZE;
    Memcpy(outEsl, offset, data);
    rc := SUCCESS;
  }

  /** Lists one after the other. */
  function EncodeAll(items: seq<Item>): (r: bytes) {
    if items == [] then [] else Encode(items[0]) + EncodeAll(items[1..])
  }

  /** The engine finds exactly the payload of an encoded item, whatever follows it. */
  lemma EncodedCert(m: Platform, item: Item, rest: bytes)
    ensures var b := Encode(item) + rest; EslCert(m, b, |b|) == Found(item.data)
  {
    EncodedHeader(item, rest);
  }

  /** The fields of any list header, whatever follows it, in their order and all of them low byte first. */
  lemma HeaderReads(t: Guid, total: nat, header: nat, signature: nat, rest: bytes)
    requires total < U32_LIMIT && header < U32_LIMIT && signature < U32_LIMIT
    ensures var b := t + Le32(total) + Le32(header) + Le32(signature) + rest;
            && SignatureType(b) == t && SignatureListSize(b) == total
            && SignatureHeaderSize(b) == header && SignatureSize(b) == signature
  {
    var b := t + Le32(total) + Le32(header) + Le32(signature) + rest;
    hide Le32;
    hide FromLe32;
    assert b[16..20] == Le32(total) && b[20..24] == Le32(header) && b[24..28] == Le32(signature);
    HasLe32(b, 16, total);
    HasLe32(b, 20, header);
    HasLe32(b, 24, signature);
  }

  /** The layout of a generated list: type, whole size, no signature header, signature size, a zero owner, the data. */
  lemma ListLayout(item: Item)
    ensures var b, n := Encode(item), |item.data|;
            && |b| == 44 + n && b[..16] == item.sigType
            && b[16..20] == Le32(44 + n) && b[20..24] == [0, 0, 0, 0] && b[24..28] == Le32(16 + n)
            && b[28..44] == Zeros(16) && b[44..] == item.data
  {
    assert Le32(0) == [0, 0, 0, 0];
    hide Le32;
  }

  /**
   * What the engine extracts from a list with any signature header: the signature data behind header and owner, if the
   * bytes that are left cover both and the signature is not smaller than its owner.
   */
  lemma ExtractsPayload(m: Platform, t: Guid, total: nat, header: bytes, owner: Guid, data: ItemData, rest: bytes, avail: nat)
    requires total < U32_LIMIT && |header| < U32_LIMIT
    requires var b := t + Le32(total) + Le32(|header|) + Le32(16 + |data|) + (header + owner + data + rest);
             ESL_HEADER <= avail <= |b|
    ensures var b := t + Le32(total) + Le32(|header|) + Le32(16 + |data|) + (header + owner + data + rest);
            EslCert(m, b, avail) == if 28 + |header| + 16 <= avail then Found(data) else Failed(OPAL_PARAMETER)
  {
    var body := header + owner + data + rest;
    var b := t + Le32(total) + Le32(|header|) + Le32(16 + |data|) + body;
    HeaderReads(t, total, |header|, 16 + |data|, body);
    hide Le32;
    hide SignatureHeaderSize;
    hide SignatureSize;
    assert b[28..] == body;
    BodyReads(b, header, owner, data, rest);
  }

  lemma BodyReads(b: bytes, header: bytes, owner: Guid, data: bytes, rest: bytes)
    requires |b| >= 28 && b[28..] == header + owner + data + rest
    ensures 44 + |header| + |data| <= |b| && b[44 + |header|..44 + |header| + |data|] == data
  {
    var body := header + owner + data + rest;
    assert body[|header| + 16..|header| + 16 + |data|] == data;
    assert b[44 + |header|..44 + |header| + |data|] == b[28..][|header| + 16..|header| + 16 + |data|];
  }
}
