/**
 * The bytes a signature covers: name, vendor GUID, attributes, time, value. The engine streams them into a hash, the
 * generator lays them out in a buffer and hashes that.
 */
module PreImage {
  import opened Bytes
  import opened Codes
  import opened Keys
  import opened Platform
  import opened Timestamp
  import opened Esl

  const GLOBAL_VARIABLE_GUID: Guid :=
    [0x61, 0xDF, 0xe4, 0x8b, 0xca, 0x93, 0xd2, 0x11, 0xaa, 0x0d, 0x00, 0xe0, 0x98, 0x03, 0x2b, 0x8c]
  const IMAGE_SECURITY_DATABASE_GUID: Guid :=
    [0xcb, 0xb2, 0x19, 0xd7, 0x3a, 0x3d, 0x96, 0x45, 0xa3, 0xbc, 0xda, 0xd0, 0x0e, 0x67, 0x65, 0x6f]
  const SECVAR_ATTRIBUTES := 39

  /** PK, KEK, db and dbx: the names that can be signed for. */
  predicate Signable(key: bytes) { SlotOf(key).Some? }

  function VendorGuid(key: bytes): (r: Guid)
    requires Signable(key)
  {
    if KeyEquals(key, PK) || KeyEquals(key, KEK) then GLOBAL_VARIABLE_GUID else IMAGE_SECURITY_DATABASE_GUID
  }

  /** Each character followed by a zero byte. */
  function Wide(name: bytes): (w: bytes)
    ensures |w| == 2 * |name|
    ensures forall i | 0 <= i < |name| :: w[2 * i] == name[i] && w[2 * i + 1] == 0
  {
    if name == [] then [] else [name[0], 0] + Wide(name[1..])
  }

  function SignedBytes(key: bytes, t: EfiTime, esl: bytes): (r: bytes)
    requires Signable(key)
  {
    Wide(CStr(key)) + VendorGuid(key) + Le32(SECVAR_ATTRIBUTES) + t + esl
  }

  /**
   * The layout of the signed bytes, position by position: the name in wide characters, the vendor GUID (the one of
   * global variables for PK and KEK, the one of the image security database for db and dbx), the attributes 0x27, the
   * time, and the value.
   */
  lemma Layout(key: bytes, t: EfiTime, esl: bytes)
    requires Signable(key)
    ensures var b, name := SignedBytes(key, t, esl), CStr(key);
            var n := 2 * |name|;
            && |b| == n + 36 + |esl|
            && (forall i | 0 <= i < |name| :: b[2 * i] == name[i] && b[2 * i + 1] == 0)
            && b[n..n + 16] == (if name == PK || name == KEK
                                then [0x61, 0xDF, 0xe4, 0x8b, 0xca, 0x93, 0xd2, 0x11, 0xaa, 0x0d, 0x00, 0xe0, 0x98, 0x03, 0x2b, 0x8c]
                                else [0xcb, 0xb2, 0x19, 0xd7, 0x3a, 0x3d, 0x96, 0x45, 0xa3, 0xbc, 0xda, 0xd0, 0x0e, 0x67, 0x65, 0x6f])
            && b[n + 16..n + 20] == [0x27, 0, 0, 0]
            && b[n + 20..n + 36] == t
            && b[n + 36..] == esl
  {
    hide SignedBytes;
    hide VendorGuid;
    hide CStr;
    hide Signable;
    hide Le32;
    VendorIs(key);
    AttributeBytes();
    LayoutParts(key, t, esl);
  }

  lemma AttributeBytes()
    ensures Le32(SECVAR_ATTRIBUTES) == [0x27, 0, 0, 0]
  {
  }

  lemma LayoutParts(key: bytes, t: EfiTime, esl: bytes)
    requires Signable(key)
    ensures var b, name, n := SignedBytes(key, t, esl), CStr(key), 2 * |CStr(key)|;
            && |b| == n + 36 + |esl|
            && (forall i | 0 <= i < |name| :: b[2 * i] == name[i] && b[2 * i + 1] == 0)
            && b[n..n + 16] == VendorGuid(key) && b[n + 16..n + 20] == Le32(SECVAR_ATTRIBUTES)
            && b[n + 20..n + 36] == t && b[n + 36..] == esl
  {
    hide Wide;
    hide Le32;
    hide VendorGuid;
    hide CStr;
    hide Signable;
    var name, n := CStr(key), 2 * |CStr(key)|;
    FiveParts(Wide(name), VendorGuid(key), Le32(SECVAR_ATTRIBUTES), t, esl, n);
    WideAtFront(name, SignedBytes(key, t, esl));
  }

  lemma VendorIs(key: bytes)
    requires Signable(key)
    ensures VendorGuid(key) == if CStr(key) == PK || CStr(key) == KEK
                               then [0x61, 0xDF, 0xe4, 0x8b, 0xca, 0x93, 0xd2, 0x11, 0xaa, 0x0d, 0x00, 0xe0, 0x98, 0x03, 0x2b, 0x8c]
                               else [0xcb, 0xb2, 0x19, 0xd7, 0x3a, 0x3d, 0x96, 0x45, 0xa3, 0xbc, 0xda, 0xd0, 0x0e, 0x67, 0x65, 0x6f]
  {
  }

  lemma FiveParts(w: bytes, g: Guid, a: bytes, t: EfiTime, esl: bytes, n: nat)
    requires |a| == 4 && n == |w|
    ensures var b := w + g + a + t + esl;
            && |b| == n + 36 + |esl| && b[..n] == w && b[n..n + 16] == g && b[n + 16..n + 20] == a
            && b[n + 20..n + 36] == t && b[n + 36..] == esl
  {
  }

  lemma WideAtFront(name: bytes, b: bytes)
    requires |b| >= 2 * |name| && b[..2 * |name|] == Wide(name)
    ensures forall i | 0 <= i < |name| :: b[2 * i] == name[i] && b[2 * i + 1] == 0
  {
    hide Wide;
    forall i | 0 <= i < |name| ensures b[2 * i] == name[i] && b[2 * i + 1] == 0 {
      assert b[2 * i] == b[..2 * |name|][2 * i] && b[2 * i + 1] == b[..2 * |name|][2 * i + 1];
    }
  }

  /** `char_to_wchar` */
  method CharToWchar(key: bytes) returns (str: array<byte>)
    ensures fresh(str) && str[..] == Wide(key)
  {
    hide Wide;
    str := new byte[|key| * 2](_ => 0);
    var i, k := 0, 0;
    while i < |key| * 2
      invariant i == 2 * k && k <= |key|
      invariant str[..i] == Wide(key)[..i]
    {
      assert Wide(key)[2 * k] == key[k] && Wide(key)[2 * k + 1] == 0;
      str[i] := key[k];
      i := i + 1;
      str[i] := 0;
      i := i + 1;
      k := k + 1;
      TwoMore(str[..], Wide(key), i - 2);
    }
    assert str[..] == Wide(key);
  }

  lemma TwoMore(a: bytes, b: bytes, i: nat)
    requires i + 2 <= |a| && i + 2 <= |b| && a[..i] == b[..i] && a[i] == b[i] && a[i + 1] == b[i + 1]
    ensures a[..i + 2] == b[..i + 2]
  {
    assert a[..i + 2] == a[..i] + [a[i], a[i + 1]] && b[..i + 2] == b[..i] + [b[i], b[i + 1]];
  }

  /** The choice of the vendor GUID by name. */
  method ChooseVendor(key: bytes) returns (vendor: Option<Guid>)
    ensures vendor == if Signable(key) then Some(VendorGuid(key)) else None
  {
    if KeyEquals(key, PK) || KeyEquals(key, KEK) {
      vendor := Some(GLOBAL_VARIABLE_GUID);
    } else if KeyEquals(key, DB) || KeyEquals(key, DBX) {
      vendor := Some(IMAGE_SECURITY_DATABASE_GUID);
    } else {
      vendor := None;
    }
  }

  /** A message digest context: its state is the bytes given to it so far. */
  class MdContext {
    const m: Platform
    var soFar: bytes

    constructor (m: Platform)
      ensures soFar == [] && this.m == m
    {
      this.m := m;
      soFar := [];
    }

    method Update(data: bytes)
      modifies this
      ensures soFar == old(soFar) + data
    {
      soFar := soFar + data;
    }

    method Finish() returns (digest: bytes)
      ensures digest == m.hash(soFar)
    {
      digest := m.hash(soFar);
    }
  }

  /** `get_hash_to_verify`: streams the parts in order; a name that cannot be signed for has no hash. */
  method GetHashToVerify(m: Platform, key: bytes, esl: bytes, t: EfiTime) returns (digest: Option<bytes>)
    ensures digest == if Signable(key) then Some(m.hash(SignedBytes(key, t, esl))) else None
  {
    var ctx := new MdContext(m);
    var vendor := ChooseVendor(key);
    if vendor.None? {
      return None;
    }
    var wkey := CharToWchar(CStr(key));
    ctx.Update(wkey[..]);
    assert ctx.soFar == Wide(CStr(key));
    ctx.Update(vendor.value);
    ctx.Update(Le32(SECVAR_ATTRIBUTES));
    ctx.Update(t);
    ctx.Update(esl);
    var d := ctx.Finish();
    digest := Some(d);
  }

  /** `getPreHashForSecVar`: the same bytes, copied part by part into one buffer. */
  method GetPreHash(key: bytes, t: EfiTime, esl: bytes) returns (rc: int, out: array<byte>)
    ensures rc == if Signable(key) then SUCCESS else ARG_PARSE_FAIL
    ensures rc == SUCCESS ==> fresh(out) && out[..] == SignedBytes(key, t, esl)
  {
    hide Wide;
    hide VendorGuid;
    out := new byte[0];
    var chosen := ChooseVendor(key);
    if chosen.None? {
      return ARG_PARSE_FAIL, out;
    }
    var vendor := chosen.value;
    var wkey := CharToWchar(CStr(key));
    var attr := Le32(SECVAR_ATTRIBUTES);
    out := new byte[wkey.Length + |vendor| + |attr| + |t| + |esl|](_ => 0);
    var p := Append(out, 0, wkey[..]);
    p := Append(out, p, vendor);
    p := Append(out, p, attr);
    p := Append(out, p, t);
    p := Append(out, p, esl);
    assert out[..p] == SignedBytes(key, t, esl);
    assert out[..] == out[..p];
    rc := SUCCESS;
  }

  /** Copies one part behind those already in the buffer. */
  method Append(out: array<byte>, p: nat, part: bytes) returns (q: nat)
    requires p + |part| <= out.Length
    modifies out
    ensures q == p + |part| && out[..q] == old(out[..p]) + part
  {
    Memcpy(out, p, part);
    q := p + |part|;
  }

  /** The signer and the verifier hash the same bytes. */
  method BothSidesAgree(m: Platform, key: bytes, t: EfiTime, esl: bytes) returns (signed: bytes, verified: bytes)
    requires Signable(key)
    ensures signed == verified == m.hash(SignedBytes(key, t, esl))
  {
    var rc, buffer := GetPreHash(key, t, esl);
    signed := m.hash(buffer[..]);
    var digest := GetHashToVerify(m, key, esl, t);
    verified := digest.value;
  }

  /** First bytes of the four names, and what follows the common prefix of db and dbx, keep them apart. */
  lemma NamesDiffer(key: bytes, t: EfiTime, esl: bytes)
    requires Signable(key)
    ensures var b := SignedBytes(key, t, esl);
            && |b| >= 40
            && (KeyEquals(key, PK) ==> b[0] == 0x50)
            && (KeyEquals(key, KEK) ==> b[0] == 0x4B)
            && (KeyEquals(key, DB) ==> b[0] == 0x64 && b[4] == 0xcb)
            && (KeyEquals(key, DBX) ==> b[0] == 0x64 && b[4] == 0x78)
  {
    var name := CStr(key);
    var b := SignedBytes(key, t, esl);
    assert b[0] == Wide(name)[2 * 0] == name[0];
    if KeyEquals(key, DB) {
      assert |Wide(name)| == 4 && b[4] == VendorGuid(key)[0];
    } else if KeyEquals(key, DBX) {
      assert b[4] == Wide(name)[2 * 2] == name[2];
    }
  }

  /** No two different (variable, time, value) triples are signed as the same bytes. */
  lemma SignedBytesInjective(k1: bytes, t1: EfiTime, e1: bytes, k2: bytes, t2: EfiTime, e2: bytes)
    requires Signable(k1) && Signable(k2)
    requires SignedBytes(k1, t1, e1) == SignedBytes(k2, t2, e2)
    ensures CStr(k1) == CStr(k2) && t1 == t2 && e1 == e2
  {
    NamesDiffer(k1, t1, e1);
    NamesDiffer(k2, t2, e2);
    var b1, b2 := SignedBytes(k1, t1, e1), SignedBytes(k2, t2, e2);
    var n := 2 * |CStr(k1)| + UUID_SIZE + 4;
    assert b1[n..n + TIME_SIZE] == t1 && b2[n..n + TIME_SIZE] == t2;
    assert b1[n + TIME_SIZE..] == e1 && b2[n + TIME_SIZE..] == e2;
  }
}
