/** Checking a signed digest against the certificates held by an authority variable. */
module VerifySignature {
  import opened Bytes
  import opened Codes
  import opened Platform
  import opened Esl

  // ---------- the walk as the code does it ----------

  /** The rest of the walk, from a list at the start of `data`, when the last certificate left `rc`. */
  function Walk(m: Platform, p: SignedData, digest: bytes, data: bytes, rc: int): (r: int) {
    if |data| < ESL_HEADER then rc
    else if Stride(data) <= 0 then OPAL_PARAMETER
    else
      match EslCert(m, data, |data|)
      case Failed(e) => e
      case Found(cert) =>
        if !m.certOk(cert) then OPAL_INTERNAL_ERROR
        else if m.verify(p, cert, digest) == 0 then OPAL_SUCCESS
        else if Stride(data) >= |data| then OPAL_PERMISSION
        else Walk(m, p, digest, data[Stride(data)..], OPAL_PERMISSION)
  }

  /** `verify_signature`: the message must parse; then the walk decides, from 0. */
  function VerifyResult(m: Platform, message: bytes, digest: bytes, held: bytes): (r: int) {
    match m.pkcs7(message)
    case None => OPAL_PARAMETER
    case Some(p) => Walk(m, p, digest, held, 0)
  }

  method Verify(m: Platform, message: bytes, digest: bytes, held: Blob) returns (rc: int)
    ensures rc == VerifyResult(m, message, digest, held)
  {
    var parsed := m.pkcs7(message);
    if parsed.None? {
      return OPAL_PARAMETER;
    }
    var p := parsed.value;
    var offset, eslvarsize := 0, |held|;
    rc := 0;
    while eslvarsize > 0
      invariant 0 <= offset && offset + eslvarsize == |held|
      invariant Walk(m, p, digest, held, 0) == if eslvarsize <= 0 then rc else Walk(m, p, digest, held[offset..], rc)
    {
      if eslvarsize < ESL_HEADER {
        break;
      }
      var list := held[offset..];
      var eslsize := Stride(list);
      if eslsize <= 0 {
        rc := OPAL_PARAMETER;
        return;
      }
      var extracted := EslCert(m, list, eslvarsize);
      if extracted.Failed? {
        rc := extracted.rc;
        return;
      }
      if !m.certOk(extracted.data) {
        rc := OPAL_INTERNAL_ERROR;
        return;
      }
      rc := m.verify(p, extracted.data, digest);
      if rc == 0 {
        return;
      }
      rc := OPAL_PERMISSION;
      offset := offset + eslsize;
      eslvarsize := eslvarsize - eslsize;
      assert eslvarsize > 0 ==> held[offset..] == list[eslsize..];
    }
  }

  // ---------- what the walk decides ----------

  /** What is left of a chain from each list reached by stepping its declared size. */
  function Reached(data: bytes): (r: seq<bytes>)
    ensures forall l | l in r :: |l| >= ESL_HEADER
    ensures |data| >= ESL_HEADER ==> |r| > 0 && r[0] == data
  {
    if |data| < ESL_HEADER then []
    else if Stride(data) <= 0 || Stride(data) >= |data| then [data]
    else [data] + Reached(data[Stride(data)..])
  }

  /** The list has a positive size and carries a certificate that parses. */
  predicate Usable(m: Platform, list: bytes)
    requires |list| >= ESL_HEADER
  {
    Stride(list) > 0 && EslCert(m, list, |list|).Found? && m.certOk(EslCert(m, list, |list|).data)
  }

  /**
   * The verification of the message with the list's certificate returns 0. What that says about signatures depends on
   * the verification, see module SignatureTrust.
   */
  predicate Passes(m: Platform, p: SignedData, digest: bytes, list: bytes)
    requires |list| >= ESL_HEADER
  {
    Usable(m, list) && m.verify(p, EslCert(m, list, |list|).data, digest) == 0
  }

  /** The list at `j` passes and each list before it is usable but does not pass. */
  predicate FirstPassing(m: Platform, p: SignedData, digest: bytes, lists: seq<bytes>, j: int)
    requires forall l | l in lists :: |l| >= ESL_HEADER
  {
    && 0 <= j < |lists|
    && Passes(m, p, digest, lists[j])
    && forall i | 0 <= i < j :: Usable(m, lists[i]) && !Passes(m, p, digest, lists[i])
  }

  predicate HasFirstPassing(m: Platform, p: SignedData, digest: bytes, lists: seq<bytes>)
    requires forall l | l in lists :: |l| >= ESL_HEADER
  {
    exists j | 0 <= j < |lists| :: FirstPassing(m, p, digest, lists, j)
  }

  /** The walk succeeds exactly when some reached list passes and no earlier list is malformed. */
  lemma {:induction false} WalkFindsFirstPassing(m: Platform, p: SignedData, digest: bytes, data: bytes, rc: int)
    requires |data| >= ESL_HEADER || rc != 0
    ensures Walk(m, p, digest, data, rc) == 0 <==> HasFirstPassing(m, p, digest, Reached(data))
  {
    if |data| >= ESL_HEADER {
      var r := Reached(data);
      if Passes(m, p, digest, data) {
        assert FirstPassing(m, p, digest, r, 0);
      } else if Usable(m, data) && Stride(data) < |data| {
        var tail := data[Stride(data)..];
        var t := Reached(tail);
        WalkFindsFirstPassing(m, p, digest, tail, OPAL_PERMISSION);
        assert r == [data] + t;
        if j :| 0 <= j < |t| && FirstPassing(m, p, digest, t, j) {
          ShiftPassing(m, p, digest, data, t, j);
          assert FirstPassing(m, p, digest, r, j + 1);
        }
        if j :| 0 <= j < |r| && FirstPassing(m, p, digest, r, j) {
          assert j != 0;
          ShiftPassing(m, p, digest, data, t, j - 1);
        }
      }
    }
  }

  lemma ShiftPassing(m: Platform, p: SignedData, digest: bytes, data: bytes, t: seq<bytes>, j: int)
    requires |data| >= ESL_HEADER && forall l | l in t :: |l| >= ESL_HEADER
    requires Usable(m, data) && !Passes(m, p, digest, data)
    ensures FirstPassing(m, p, digest, [data] + t, j + 1) <==> FirstPassing(m, p, digest, t, j)
  {
    var r := [data] + t;
    if FirstPassing(m, p, digest, r, j + 1) {
      assert r[0] == data;
      forall i | 0 <= i < j ensures Usable(m, t[i]) && !Passes(m, p, digest, t[i]) {
        assert r[i + 1] == t[i];
      }
    }
  }

  /** On an authority value of at least one header, success means that a certificate held there passes the verification. */
  lemma VerifyMeansPassing(m: Platform, message: bytes, digest: bytes, held: bytes)
    requires |held| >= ESL_HEADER
    ensures VerifyResult(m, message, digest, held) == 0
       <==> m.pkcs7(message).Some? && HasFirstPassing(m, m.pkcs7(message).value, digest, Reached(held))
  {
    if m.pkcs7(message).Some? {
      WalkFindsFirstPassing(m, m.pkcs7(message).value, digest, held, 0);
    }
  }

  /** On a shorter value the walk is never entered: any message that parses is accepted. */
  lemma ShortAuthorityAcceptsAll(m: Platform, message: bytes, digest: bytes, held: bytes)
    requires |held| < ESL_HEADER
    ensures VerifyResult(m, message, digest, held) == 0 <==> m.pkcs7(message).Some?
  {
  }

  // ---------- well-formed chains ----------

  /** On lists written by the generator the walk reaches each of them once and in order. */
  lemma {:induction false} ReachedOfEncoded(items: seq<Item>)
    ensures var r := Reached(EncodeAll(items));
            |r| == |items| && forall i | 0 <= i < |items| :: r[i] == EncodeAll(items[i..])
  {
    if items != [] {
      ReachedOfEncoded(items[1..]);
      ReachedHead(items);
      hide Reached;
      hide EncodeAll;
      forall i | 0 < i < |items| ensures Reached(EncodeAll(items))[i] == EncodeAll(items[i..]) {
        assert items[1..][i - 1..] == items[i..];
      }
      assert items[0..] == items;
    }
  }

  lemma ReachedHead(items: seq<Item>)
    requires items != []
    ensures Reached(EncodeAll(items)) == [EncodeAll(items)] + Reached(EncodeAll(items[1..]))
  {
    var all, rest := EncodeAll(items), EncodeAll(items[1..]);
    EncodedHeader(items[0], rest);
    assert all == Encode(items[0]) + rest;
    hide Encode;
    hide Stride;
    hide EncodeAll;
    if rest == [] {
      assert Reached(rest) == [];
    } else {
      assert all[Stride(all)..] == rest;
    }
  }

  /** Of a chain of parsing certificates, the message is accepted as soon as one of them verifies it. */
  lemma ChainVerifies(m: Platform, p: SignedData, digest: bytes, items: seq<Item>)
    requires items != [] && forall x | x in items :: m.certOk(x.data)
    ensures Walk(m, p, digest, EncodeAll(items), 0) == 0
       <==> exists j :: 0 <= j < |items| && m.verify(p, items[j].data, digest) == 0
  {
    var r := Reached(EncodeAll(items));
    ReachedOfEncoded(items);
    WalkFindsFirstPassing(m, p, digest, EncodeAll(items), 0);
    forall i | 0 <= i < |items|
      ensures Usable(m, r[i]) && (Passes(m, p, digest, r[i]) <==> m.verify(p, items[i].data, digest) == 0)
    {
      var rest := EncodeAll(items[i + 1..]);
      assert items[i..][1..] == items[i + 1..];
      assert r[i] == Encode(items[i]) + rest;
      EncodedHeader(items[i], rest);
      EncodedCert(m, items[i], rest);
    }
    if j: int :| 0 <= j < |items| && m.verify(p, items[j].data, digest) == 0 {
      var k := Least(m, p, digest, items, j);
      assert FirstPassing(m, p, digest, r, k);
    }
  }

  /** A chain of parsing certificates of which none passes is answered with a lack of permission. */
  lemma {:induction false} ChainRefuses(m: Platform, p: SignedData, digest: bytes, items: seq<Item>, rc: int)
    requires forall x | x in items :: m.certOk(x.data) && m.verify(p, x.data, digest) != 0
    ensures Walk(m, p, digest, EncodeAll(items), rc) == if items == [] then rc else OPAL_PERMISSION
  {
    if items != [] {
      var rest := items[1..];
      WalkHead(m, p, digest, items[0], EncodeAll(rest), rc);
      hide Walk;
      ChainRefuses(m, p, digest, rest, OPAL_PERMISSION);
    }
  }

  lemma WalkHead(m: Platform, p: SignedData, digest: bytes, item: Item, rest: bytes, rc: int)
    requires m.certOk(item.data) && m.verify(p, item.data, digest) != 0
    ensures Walk(m, p, digest, Encode(item) + rest, rc) == Walk(m, p, digest, rest, OPAL_PERMISSION)
  {
    var b := Encode(item) + rest;
    EncodedHeader(item, rest);
    EncodedCert(m, item, rest);
    hide Encode;
    hide Stride;
    hide EslCert;
    if rest == [] {
      assert |b| == |Encode(item)|;
    } else {
      assert b[|Encode(item)|..] == rest;
    }
  }

  lemma Least(m: Platform, p: SignedData, digest: bytes, items: seq<Item>, j: nat) returns (k: nat)
    requires j < |items| && m.verify(p, items[j].data, digest) == 0
    ensures k <= j && m.verify(p, items[k].data, digest) == 0
    ensures forall i | 0 <= i < k :: m.verify(p, items[i].data, digest) != 0
  {
    k := 0;
    while m.verify(p, items[k].data, digest) != 0
      invariant k <= j && forall i | 0 <= i < k :: m.verify(p, items[i].data, digest) != 0
      decreases j - k
    {
      k := k + 1;
    }
  }
}
