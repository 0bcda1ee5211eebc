/** The tool's own walk over a chain of signature lists, `validateESL`. */
module EslValidate {
  import opened Bytes
  import opened Codes
  import opened Keys
  import opened Platform
  import opened Esl

  /** `getSigType` names one of the SHA types. */
  predicate IsSha(t: Guid) {
    t == SHA1_GUID || t == SHA224_GUID || t == SHA256_GUID || t == SHA384_GUID || t == SHA512_GUID
  }

  /**
   * The tool's `get_esl_cert`, which trusts the header; a signature size below the owner's 16 bytes wraps to one
   * no allocation can satisfy.
   */
  function ReadCert(m: Platform, list: bytes): (p: Payload)
    requires |list| >= ESL_HEADER
    ensures p.Failed? ==> p.rc < 0
  {
    if SignatureSize(list) < UUID_SIZE then Failed(ALLOC_FAIL)
    else Found(m.Copy(list, PayloadOffset(list), SignatureSize(list) - UUID_SIZE))
  }

  /** `validateSingularESL` on the first list of what remains. */
  function SingularResult(m: Platform, key: bytes, rest: bytes): (r: int) {
    if |rest| < ESL_HEADER then ESL_FAIL
    else
      var total, header, signature := SignatureListSize(rest), SignatureHeaderSize(rest), SignatureSize(rest);
      if total > 0 && ((signature == 0 && header == 0) || total < (header + signature) % U32_LIMIT) then ESL_FAIL
      else if total > |rest| || header > |rest| || signature > |rest| then ESL_FAIL
      else if ToInt32(total) <= 0 then ESL_FAIL
      else if CStr(key) == DBX && !IsSha(SignatureType(rest)) then ESL_FAIL
      else if CStr(key) != DBX && SignatureType(rest) != X509_GUID then ESL_FAIL
      else
        match ReadCert(m, rest)
        case Failed(_) => ESL_FAIL
        case Found(cert) =>
          if cert == [] then ESL_FAIL
          else if CStr(key) == DBX then
            if ValidateHash(SignatureType(rest), |cert|) then SUCCESS else HASH_FAIL
          else m.validateCert(cert, key)
  }

  /** A list that passes is not empty and lies within what remains. */
  lemma SingularBounds(m: Platform, key: bytes, rest: bytes)
    requires SingularResult(m, key, rest) == SUCCESS
    ensures ESL_HEADER <= |rest| && 0 < SignatureListSize(rest) <= |rest|
    ensures ReadCert(m, rest).Found?
  {
  }

  /** What the verdict on a single list amounts to. */
  predicate ListIsValid(m: Platform, key: bytes, rest: bytes) {
    && |rest| >= ESL_HEADER
    && var total, header, signature := SignatureListSize(rest), SignatureHeaderSize(rest), SignatureSize(rest);
       && 0 < total <= |rest| && total <= INT_MAX && header <= |rest|
       // the payload behind the owner is not empty
       && UUID_SIZE < signature <= |rest|
       // the list covers header and signature, but the 28 bytes in front of them are not asked for
       && (header + signature) % U32_LIMIT <= total
       && var data := m.Copy(rest, ESL_HEADER + header + UUID_SIZE, signature - UUID_SIZE);
          if CStr(key) == DBX then ValidateHash(SignatureType(rest), signature - UUID_SIZE)
          else SignatureType(rest) == X509_GUID && m.validateCert(data, key) == SUCCESS
  }

  /** A single list passes exactly when it is valid. */
  lemma SingularExact(m: Platform, key: bytes, rest: bytes)
    ensures SingularResult(m, key, rest) == SUCCESS <==> ListIsValid(m, key, rest)
  {
    if |rest| >= ESL_HEADER {
      var t := SignatureType(rest);
      assert forall n :: ValidateHash(t, n) ==> IsSha(t);
    }
  }

  /** What the walk saw: the payloads it extracted, the bytes it covered, and the code it stopped with. */
  datatype EslWalk = EslWalk(rc: int, payloads: seq<bytes>, covered: nat)

  function WalkEsl(m: Platform, key: bytes, rest: bytes): (w: EslWalk)
    ensures w.covered <= |rest|
    ensures w.rc == SUCCESS <==> w.covered == |rest|
  {
    if rest == [] then EslWalk(SUCCESS, [], 0)
    else if SingularResult(m, key, rest) != SUCCESS then EslWalk(SingularResult(m, key, rest), [], 0)
    else
      SingularBounds(m, key, rest);
      var size := SignatureListSize(rest);
      var w := WalkEsl(m, key, rest[size..]);
      EslWalk(w.rc, [ReadCert(m, rest).data] + w.payloads, size + w.covered)
  }

  /** `validateESL`: one good list is enough; what follows it need not be well formed. */
  function EslResult(m: Platform, key: bytes, esl: bytes): (r: int) {
    var w := WalkEsl(m, key, esl);
    if w.payloads != [] then SUCCESS else if esl == [] then ESL_FAIL else w.rc
  }

  /** A value passes exactly when it starts with a valid list, whatever follows. */
  lemma FirstListDecides(m: Platform, key: bytes, esl: bytes)
    ensures EslResult(m, key, esl) == SUCCESS <==> ListIsValid(m, key, esl)
    ensures EslResult(m, key, esl) != SUCCESS && esl != [] ==> EslResult(m, key, esl) == SingularResult(m, key, esl)
  {
    SingularExact(m, key, esl);
    hide SingularResult;
    if ListIsValid(m, key, esl) {
      WalkGoesOn(m, key, [], 0, esl);
    }
    hide ListIsValid;
  }

  /** A walk continued after `payloads` were extracted from the first `covered` bytes. */
  function After(payloads: seq<bytes>, covered: nat, w: EslWalk): (r: EslWalk) {
    EslWalk(w.rc, payloads + w.payloads, covered + w.covered)
  }

  lemma WalkStops(m: Platform, key: bytes, payloads: seq<bytes>, covered: nat, list: bytes)
    requires list == [] || SingularResult(m, key, list) != SUCCESS
    ensures After(payloads, covered, WalkEsl(m, key, list))
         == EslWalk(if list == [] then SUCCESS else SingularResult(m, key, list), payloads, covered)
  {
    hide SingularResult;
    assert payloads + [] == payloads;
  }

  lemma WalkGoesOn(m: Platform, key: bytes, payloads: seq<bytes>, covered: nat, list: bytes)
    requires SingularResult(m, key, list) == SUCCESS
    ensures |list| >= ESL_HEADER && 0 < SignatureListSize(list) <= |list| && ReadCert(m, list).Found?
    ensures After(payloads, covered, WalkEsl(m, key, list))
         == After(payloads + [ReadCert(m, list).data], covered + SignatureListSize(list),
                  WalkEsl(m, key, list[SignatureListSize(list)..]))
  {
    SingularBounds(m, key, list);
    hide SingularResult;
    hide ReadCert;
    var w := WalkEsl(m, key, list[SignatureListSize(list)..]);
    assert payloads + ([ReadCert(m, list).data] + w.payloads) == payloads + [ReadCert(m, list).data] + w.payloads;
  }

  /** `validateESL` */
  method ValidateEsl(m: Platform, key: bytes, esl: Blob) returns (rc: int, payloads: seq<bytes>, offset: nat)
    ensures rc == EslResult(m, key, esl)
    ensures payloads == WalkEsl(m, key, esl).payloads && offset == WalkEsl(m, key, esl).covered
  {
    hide SingularResult;
    hide ReadCert;
    var eslvarsize: int := |esl|;
    payloads, offset := [], 0;
    ghost var whole := WalkEsl(m, key, esl);
    assert After([], 0, whole) == whole;
    hide WalkEsl;
    hide After;
    while eslvarsize > 0
      invariant 0 <= eslvarsize && offset + eslvarsize == |esl|
      invariant whole == After(payloads, offset, WalkEsl(m, key, esl[offset..]))
    {
      var list := esl[offset..];
      rc := SingularResult(m, key, list);
      if rc != SUCCESS {
        WalkStops(m, key, payloads, offset, list);
        if |payloads| > 0 {
          break;
        }
        return;
      }
      WalkGoesOn(m, key, payloads, offset, list);
      payloads := payloads + [ReadCert(m, list).data];
      var eslsize := SignatureListSize(list);
      offset := offset + eslsize;
      eslvarsize := eslvarsize - eslsize;
      assert esl[offset..] == list[eslsize..];
    }
    if eslvarsize == 0 {
      WalkStops(m, key, payloads, offset, esl[offset..]);
    }
    rc := if |payloads| == 0 then ESL_FAIL else SUCCESS;
  }

  /** An accepted value starts with a whole list, so it is at least a header long. */
  lemma ValidatedIsLong(m: Platform, key: bytes, esl: bytes)
    requires EslResult(m, key, esl) == SUCCESS
    ensures |esl| >= ESL_HEADER
  {
    if SingularResult(m, key, esl) == SUCCESS {
      SingularBounds(m, key, esl);
    }
  }

  /** A generated item of a kind the variable takes. */
  predicate Wanted(m: Platform, key: bytes, item: Item) {
    && item.data != []
    && if CStr(key) == DBX then ValidateHash(item.sigType, |item.data|)
       else item.sigType == X509_GUID && m.validateCert(item.data, key) == SUCCESS
  }

  function Payloads(items: seq<Item>): (r: seq<bytes>) {
    if items == [] then [] else [items[0].data] + Payloads(items[1..])
  }

  /** On generated lists the walk visits each once and in order, extracts its payload, and covers the whole buffer. */
  lemma {:induction false} WalkOfEncoded(m: Platform, key: bytes, items: seq<Item>)
    requires forall x | x in items :: Wanted(m, key, x)
    ensures WalkEsl(m, key, EncodeAll(items)) == EslWalk(SUCCESS, Payloads(items), |EncodeAll(items)|)
  {
    if items != [] {
      var item, rest := items[0], EncodeAll(items[1..]);
      var b := EncodeAll(items);
      assert b == Encode(item) + rest;
      assert Wanted(m, key, item);
      EncodedPasses(m, key, item, rest);
      hide SingularResult;
      hide ReadCert;
      hide Wanted;
      hide Encode;
      WalkOfEncoded(m, key, items[1..]);
      assert b[SignatureListSize(b)..] == rest;
    }
  }

  lemma EncodedPasses(m: Platform, key: bytes, item: Item, rest: bytes)
    requires Wanted(m, key, item)
    ensures var b := Encode(item) + rest;
            && SingularResult(m, key, b) == SUCCESS && ReadCert(m, b) == Found(item.data)
            && SignatureListSize(b) == |Encode(item)| && b[|Encode(item)|..] == rest
  {
    var b := Encode(item) + rest;
    EncodedHeader(item, rest);
    assert b[ESL_HEADER + UUID_SIZE..][..|item.data|] == b[ESL_HEADER + UUID_SIZE..ESL_HEADER + UUID_SIZE + |item.data|];
    hide *;
    HeaderPasses(m, key, item, b);
  }

  /** A list with the header of a generated item passes, and its payload is the item's. */
  lemma HeaderPasses(m: Platform, key: bytes, item: Item, b: bytes)
    requires Wanted(m, key, item) && |b| >= ESL_HEADER + UUID_SIZE + |item.data|
    requires SignatureType(b) == item.sigType && SignatureListSize(b) == ESL_HEADER + UUID_SIZE + |item.data|
    requires SignatureHeaderSize(b) == 0 && SignatureSize(b) == |item.data| + UUID_SIZE
    requires b[ESL_HEADER + UUID_SIZE..ESL_HEADER + UUID_SIZE + |item.data|] == item.data
    ensures SingularResult(m, key, b) == SUCCESS && ReadCert(m, b) == Found(item.data)
  {
    hide SignatureType;
    hide SignatureListSize;
    hide SignatureHeaderSize;
    hide SignatureSize;
    hide ValidateHash;
    assert ReadCert(m, b) == Found(item.data);
    assert (SignatureHeaderSize(b) + SignatureSize(b)) % U32_LIMIT == |item.data| + UUID_SIZE;
    assert CStr(key) == DBX ==> IsSha(item.sigType) by { DigestIsSha(item); }
  }

  lemma DigestIsSha(item: Item)
    ensures ValidateHash(item.sigType, |item.data|) ==> IsSha(item.sigType)
  {
  }
}
