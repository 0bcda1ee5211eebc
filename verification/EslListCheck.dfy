/** The engine's format check of a new value, `validate_esl_list`. */
module EslListCheck {
  import opened Bytes
  import opened Codes
  import opened Keys
  import opened Platform
  import opened Esl

  /** The payload is of the kind the variable stores: a digest for dbx, else a certificate. */
  predicate Acceptable(m: Platform, key: bytes, sigType: Guid, data: bytes) {
    if KeyEquals(key, DBX) then ValidateHash(sigType, |data|)
    else sigType == X509_GUID && m.certOk(data)
  }

  /**
   * The loop, with `avail` bytes still to cover. Every round reads the header and the payload at the start of
   * `esl`; only the count of remaining bytes moves.
   */
  function Loop(m: Platform, key: bytes, esl: bytes, avail: int, count: nat): (r: int)
    requires avail <= |esl|
    decreases avail
  {
    if avail < ESL_HEADER then count
    else if Stride(esl) <= 0 then OPAL_PARAMETER
    else
      match EslCert(m, esl, avail)
      case Failed(rc) => rc
      case Found(data) =>
        if !Acceptable(m, key, SignatureType(esl), data) then OPAL_PARAMETER
        else Loop(m, key, esl, avail - Stride(esl), count + 1)
  }

  /** The number of lists counted, or a negative code. */
  function CheckResult(m: Platform, key: bytes, esl: bytes): (r: int) {
    var rc := Loop(m, key, esl, |esl|, 0);
    if rc > 1 && KeyEquals(key, PK) then OPAL_PARAMETER else rc
  }

  method ValidateEslList(m: Platform, key: bytes, esl: Blob) returns (rc: int)
    ensures rc == CheckResult(m, key, esl)
  {
    var count, eslvarsize, offset := 0, |esl|, 0;
    while eslvarsize > 0
      invariant eslvarsize <= |esl| && count >= 0
      invariant Loop(m, key, esl, |esl|, 0) == Loop(m, key, esl, eslvarsize, count)
    {
      if eslvarsize < ESL_HEADER {
        break;
      }
      var eslsize := Stride(esl);
      if eslsize <= 0 {
        return OPAL_PARAMETER;
      }
      var extracted := EslCert(m, esl, eslvarsize);
      if extracted.Failed? {
        return extracted.rc;
      }
      if !Acceptable(m, key, SignatureType(esl), extracted.data) {
        return OPAL_PARAMETER;
      }
      count := count + 1;
      offset := offset + eslsize;
      eslvarsize := eslvarsize - eslsize;
    }
    if KeyEquals(key, PK) && count > 1 {
      rc := OPAL_PARAMETER;
    } else {
      rc := count;
    }
  }

  // ---------- what the check decides ----------

  /** The payload the check looks at, when its header is readable. */
  function FirstPayload(m: Platform, esl: bytes): (r: Payload)
    requires |esl| >= ESL_HEADER
  {
    EslCert(m, esl, |esl|)
  }

  /** Rounds a walk of stride `s` makes while a header's worth of bytes is left, `room` beyond it at the start. */
  function Rounds(room: nat, s: nat): (r: nat)
    requires s > 0
  {
    if room < s then 1 else 1 + Rounds(room - s, s)
  }

  /** What is left beyond a header's worth of bytes in the last round. */
  function LastRoom(room: nat, s: nat): (r: nat)
    requires s > 0
    ensures r <= room
  {
    if room < s then room else LastRoom(room - s, s)
  }

  lemma {:induction false} RoundsAreQuotient(room: nat, s: nat)
    requires s > 0
    ensures Rounds(room, s) == room / s + 1 && LastRoom(room, s) == room % s
  {
    if room < s {
      SmallQuotient(room, s);
    } else {
      RoundsAreQuotient(room - s, s);
      QuotientStep(room, s);
    }
  }

  lemma SmallQuotient(a: nat, s: nat)
    requires a < s
    ensures a / s == 0 && a % s == a
  {
  }

  lemma QuotientStep(a: nat, s: nat)
    requires 0 < s <= a
    ensures a / s == (a - s) / s + 1 && a % s == (a - s) % s
  {
    var q, r := (a - s) / s, (a - s) % s;
    assert a == (q + 1) * s + r;
    QuotientUnique(s, q + 1, r, a / s, a % s);
  }

  lemma QuotientUnique(s: nat, q: int, r: nat, q': int, r': nat)
    requires r < s && r' < s && q * s + r == q' * s + r'
    ensures q == q' && r == r'
  {
    assert (q - q') * s == r' - r && (q' - q) * s == r - r';
    if q > q' {
      AtLeast(q - q', s);
      assert false;
    } else if q' > q {
      AtLeast(q' - q, s);
      assert false;
    }
  }

  lemma AtLeast(d: int, s: nat)
    requires d >= 1
    ensures d * s >= s
  {
  }

  /** Conditions on the first header under which every round passes when `avail` bytes are to be covered. */
  predicate RoundsPass(m: Platform, key: bytes, esl: bytes, avail: nat)
    requires ESL_HEADER <= avail <= |esl|
  {
    && Stride(esl) > 0
    && FirstPayload(m, esl).Found?
    && Acceptable(m, key, SignatureType(esl), FirstPayload(m, esl).data)
    && PayloadOffset(esl) <= ESL_HEADER + LastRoom(avail - ESL_HEADER, Stride(esl))
  }

  lemma {:induction false} LoopExact(m: Platform, key: bytes, esl: bytes, avail: nat, count: nat)
    requires ESL_HEADER <= avail <= |esl|
    ensures RoundsPass(m, key, esl, avail)
        ==> Loop(m, key, esl, avail, count) == count + Rounds(avail - ESL_HEADER, Stride(esl))
    ensures !RoundsPass(m, key, esl, avail) ==> Loop(m, key, esl, avail, count) < 0
    decreases avail
  {
    var s := Stride(esl);
    if s > 0 && avail - ESL_HEADER >= s {
      LoopExact(m, key, esl, avail - s, count + 1);
    }
  }

  /**
   * The check passes exactly under conditions on the first list, and then counts the rounds of its fixed stride;
   * a value shorter than one header passes with count 0.
   */
  lemma CheckExact(m: Platform, key: bytes, esl: bytes)
    ensures |esl| < ESL_HEADER ==> CheckResult(m, key, esl) == 0
    ensures |esl| >= ESL_HEADER ==>
      var room := |esl| - ESL_HEADER;
      var s := Stride(esl);
      if && s > 0
         && FirstPayload(m, esl).Found?
         && Acceptable(m, key, SignatureType(esl), FirstPayload(m, esl).data)
         && PayloadOffset(esl) <= ESL_HEADER + room % s
         && (KeyEquals(key, PK) ==> room < s)
      then CheckResult(m, key, esl) == room / s + 1
      else CheckResult(m, key, esl) < 0
  {
    if |esl| >= ESL_HEADER {
      LoopExact(m, key, esl, |esl|, 0);
      if Stride(esl) > 0 {
        RoundsAreQuotient(|esl| - ESL_HEADER, Stride(esl));
      }
    }
  }

  /** An accepted PK value has fewer than 28 bytes beyond its first list. */
  lemma AcceptedPkIsOneList(m: Platform, key: bytes, esl: bytes)
    requires KeyEquals(key, PK) && |esl| >= ESL_HEADER && CheckResult(m, key, esl) >= 0
    ensures CheckResult(m, key, esl) == 1 && |esl| < Stride(esl) + ESL_HEADER
  {
    LoopExact(m, key, esl, |esl|, 0);
  }

  /** A single generated list of the right kind passes with count 1. */
  lemma EncodedItemPasses(m: Platform, key: bytes, item: Item)
    requires Acceptable(m, key, item.sigType, item.data)
    ensures CheckResult(m, key, Encode(item)) == 1
  {
    assert Encode(item) + [] == Encode(item);
    EncodedHeader(item, []);
    EncodedCert(m, item, []);
    var e := Encode(item);
    LoopExact(m, key, e, |e|, 0);
  }

  // ---------- chains of lists ----------

  /** Buffers of one length whose first lists read alike are judged alike. */
  lemma {:induction false} LoopsAgree(m: Platform, key: bytes, a: bytes, b: bytes, avail: int, count: nat)
    requires avail <= |a| == |b| && |a| >= ESL_HEADER
    requires Stride(a) == Stride(b) && SignatureType(a) == SignatureType(b)
    requires forall n | ESL_HEADER <= n <= |a| :: EslCert(m, a, n) == EslCert(m, b, n)
    ensures Loop(m, key, a, avail, count) == Loop(m, key, b, avail, count)
    decreases avail
  {
    hide Stride;
    hide SignatureType;
    hide EslCert;
    hide Acceptable;
    if avail >= ESL_HEADER && Stride(a) > 0 {
      LoopsAgree(m, key, a, b, avail - Stride(a), count + 1);
    }
  }

  /** Only the first list is read: what follows it counts by its length alone. */
  lemma OnlyFirstListIsRead(m: Platform, key: bytes, item: Item, a: bytes, b: bytes)
    requires |a| == |b|
    ensures CheckResult(m, key, Encode(item) + a) == CheckResult(m, key, Encode(item) + b)
  {
    var x, y := Encode(item) + a, Encode(item) + b;
    EncodedHeader(item, a);
    EncodedHeader(item, b);
    assert SignatureType(x) == SignatureType(y) && Stride(x) == Stride(y);
    EncodedCert(m, item, a);
    EncodedCert(m, item, b);
    hide Encode;
    forall n | ESL_HEADER <= n <= |x| ensures EslCert(m, x, n) == EslCert(m, y, n) {
    }
    LoopsAgree(m, key, x, y, |x|, 0);
  }

  /**
   * A chain whose first list is of the right kind passes exactly when the fixed stride leaves room for the owner in
   * its last round (and PK holds no second stride); the lists after the first matter only through their total length.
   */
  lemma ChainCheckExact(m: Platform, key: bytes, items: seq<Item>)
    requires items != [] && Acceptable(m, key, items[0].sigType, items[0].data)
    ensures var s, room := |Encode(items[0])|, |EncodeAll(items)| - ESL_HEADER;
            if room % s >= UUID_SIZE && (KeyEquals(key, PK) ==> room < s)
            then CheckResult(m, key, EncodeAll(items)) == room / s + 1
            else CheckResult(m, key, EncodeAll(items)) < 0
  {
    var all, rest := EncodeAll(items), EncodeAll(items[1..]);
    EncodedHeader(items[0], rest);
    EncodedCert(m, items[0], rest);
    assert all == Encode(items[0]) + rest;
    CheckExact(m, key, all);
    hide *;
    FirstListReads(m, items[0], all);
  }

  function Times(q: nat, s: nat): (r: nat) { q * s }

  lemma TimesFacts(q: nat, s: nat, r: nat)
    requires r < s
    ensures (Times(q, s) + r) / s == q && (Times(q, s) + r) % s == r
    ensures Times(q, s) + r < s <==> q == 0
    ensures Times(q + 1, s) == Times(q, s) + s
  {
    var n := q * s + r;
    assert n == (n / s) * s + n % s;
    QuotientUnique(s, q, r, n / s, n % s);
    if q > 0 { AtLeast(q, s); }
  }

  /** The same with quotient and remainder named. */
  lemma ChainCheckAt(m: Platform, key: bytes, items: seq<Item>, q: nat, r: nat)
    requires items != [] && Acceptable(m, key, items[0].sigType, items[0].data)
    requires r < |Encode(items[0])| && |EncodeAll(items)| - ESL_HEADER == Times(q, |Encode(items[0])|) + r
    ensures if r >= UUID_SIZE && (KeyEquals(key, PK) ==> q == 0)
            then CheckResult(m, key, EncodeAll(items)) == q + 1
            else CheckResult(m, key, EncodeAll(items)) < 0
  {
    hide *;
    ChainCheckExact(m, key, items);
    TimesFacts(q, |Encode(items[0])|, r);
  }

  lemma FirstListReads(m: Platform, item: Item, all: bytes)
    requires |all| >= ESL_HEADER && SignatureHeaderSize(all) == 0 && EslCert(m, all, |all|) == Found(item.data)
    ensures PayloadOffset(all) == ESL_HEADER + UUID_SIZE && FirstPayload(m, all) == Found(item.data)
  {
  }

  /** Lists of one size take up that size each. */
  lemma {:induction false} EqualSizes(items: seq<Item>, s: nat)
    requires s > 0 && forall x | x in items :: |Encode(x)| == s
    ensures |EncodeAll(items)| == Times(|items|, s)
  {
    hide Encode;
    if items != [] {
      EqualSizes(items[1..], s);
      TimesFacts(|items| - 1, s, 0);
      hide Times;
    }
  }

  /** A chain of equally long lists always passes, and each list is counted once (for a variable other than PK). */
  lemma EqualSizesPass(m: Platform, key: bytes, items: seq<Item>, s: nat)
    requires items != [] && Acceptable(m, key, items[0].sigType, items[0].data) && !KeyEquals(key, PK)
    requires forall x | x in items :: |Encode(x)| == s
    ensures CheckResult(m, key, EncodeAll(items)) == |items|
  {
    hide Encode;
    hide EncodeAll;
    hide Acceptable;
    hide CheckResult;
    hide Times;
    assert items[0] in items && s >= ESL_HEADER + UUID_SIZE;
    EqualSizes(items, s);
    EqualStrides(m, key, items, s, |items| - 1);
  }

  lemma EqualStrides(m: Platform, key: bytes, items: seq<Item>, s: nat, q: nat)
    requires items != [] && Acceptable(m, key, items[0].sigType, items[0].data) && !KeyEquals(key, PK)
    requires s == |Encode(items[0])| && |EncodeAll(items)| == Times(q + 1, s)
    ensures CheckResult(m, key, EncodeAll(items)) == q + 1
  {
    assert s >= ESL_HEADER + UUID_SIZE;
    hide Encode;
    hide EncodeAll;
    hide Acceptable;
    hide CheckResult;
    TimesFacts(q, s, 0);
    hide Times;
    ChainCheckAt(m, key, items, q, s - ESL_HEADER);
  }

  /** Two well-formed lists are refused when the second is 28 bytes longer than the first. */
  lemma LongerSecondIsRefused(m: Platform, key: bytes, x: Item, y: Item)
    requires Acceptable(m, key, x.sigType, x.data) && |y.data| == |x.data| + ESL_HEADER
    ensures CheckResult(m, key, EncodeAll([x, y])) < 0
  {
    assert |Encode(y)| == |Encode(x)| + ESL_HEADER;
    PairLength(x, y);
    hide Encode;
    hide Acceptable;
    hide CheckResult;
    assert Times(2, |Encode(x)|) == 2 * |Encode(x)|;
    hide Times;
    ChainCheckAt(m, key, [x, y], 2, 0);
  }

  lemma PairLength(x: Item, y: Item)
    ensures |EncodeAll([x, y])| == |Encode(x)| + |Encode(y)|
  {
    hide Encode;
    assert [x, y][1..] == [y] && [y][1..] == [];
    assert EncodeAll([y]) == Encode(y) + EncodeAll([]);
  }

  /**
   * The verdict on a single generated list: dbx takes digests whose length fits their type, the other variables take
   * certificates that parse.
   */
  lemma SingleListExact(m: Platform, key: bytes, t: Guid, d: ItemData)
    ensures var ok :=
              if CStr(key) == DBX then
                || (t == SHA1_GUID && |d| == 20) || (t == SHA224_GUID && |d| == 28) || (t == SHA256_GUID && |d| == 32)
                || (t == SHA384_GUID && |d| == 48) || (t == SHA512_GUID && |d| == 64)
              else t == X509_GUID && m.certOk(d);
            if ok then CheckResult(m, key, Encode(Item(t, d))) == 1 else CheckResult(m, key, Encode(Item(t, d))) < 0
  {
    var item, e := Item(t, d), Encode(Item(t, d));
    assert e + [] == e;
    EncodedHeader(item, []);
    EncodedCert(m, item, []);
    if Acceptable(m, key, t, d) {
      EncodedItemPasses(m, key, item);
    } else {
      CheckExact(m, key, e);
    }
    hide Encode;
    hide CheckResult;
    hide EslCert;
  }
}
