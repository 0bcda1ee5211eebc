/** EFI timestamps, the TS variable that stores one per variable, and the replay check. */
module Timestamp {
  import opened Bytes
  import opened Keys
  import opened Codes

  const TIME_SIZE := 16
  const TS_SIZE := 64
  const YEAR_LIMIT := 0x1_0000
  const U64_LIMIT := 0x1_0000_0000_0000_0000

  /** A `struct efi_time` in memory. */
  type EfiTime = t: bytes | |t| == TIME_SIZE witness Zeros(TIME_SIZE)

  function Year(t: EfiTime): (y: nat)
    ensures y < YEAR_LIMIT
  {
    t[0] as int + 0x100 * t[1] as int
  }

  /** The fields that are compared, most significant first: month, day, hour, minute, second, pad1 follow the year. */
  function Fields(t: EfiTime): (f: seq<nat>)
    ensures |f| == 7
  {
    [Year(t), t[2] as int, t[3] as int, t[4] as int, t[5] as int, t[6] as int, t[7] as int]
  }

  // ---------- the packed value ----------

  function Pow2(k: nat): (p: nat)
    ensures p > 0
  {
    if k == 0 then 1 else 2 * Pow2(k - 1)
  }

  /** Bitwise OR of two unsigned integers. */
  function Or(a: nat, b: nat): (r: nat) {
    if a == 0 && b == 0 then 0
    else 2 * Or(a / 2, b / 2) + if a % 2 == 1 || b % 2 == 1 then 1 else 0
  }

  /** Left shift of a `uint64_t`. */
  function Shl(x: nat, k: nat): (r: nat) { x * Pow2(k) % U64_LIMIT }

  function Unpack(t: EfiTime): (r: nat) {
    var v0 := Or(0, Shl(t[7] as int, 0));
    var v1 := Or(v0, Shl(t[6] as int, 8));
    var v2 := Or(v1, Shl(t[5] as int, 16));
    var v3 := Or(v2, Shl(t[4] as int, 24));
    var v4 := Or(v3, Shl(t[3] as int, 32));
    var v5 := Or(v4, Shl(t[2] as int, 40));
    Or(v5, Shl(Year(t), 48))
  }

  /** The number whose base-256 digits, from the least, are pad1, second, minute, hour, day, month and then the year. */
  function Positional(t: EfiTime): (r: nat) {
    t[7] as int
    + 0x100 * t[6] as int
    + 0x1_0000 * t[5] as int
    + 0x100_0000 * t[4] as int
    + 0x1_0000_0000 * t[3] as int
    + 0x100_0000_0000 * t[2] as int
    + 0x1_0000_0000_0000 * Year(t)
  }

  lemma {:induction false} OrDisjoint(a: nat, x: nat, k: nat)
    requires a < Pow2(k)
    ensures Or(a, x * Pow2(k)) == a + x * Pow2(k)
  {
    if k == 0 {
      OrZero(x);
    } else {
      var b := x * Pow2(k - 1);
      assert x * Pow2(k) == 2 * b;
      OrDisjoint(a / 2, x, k - 1);
    }
  }

  lemma {:induction false} OrZero(x: nat)
    ensures Or(0, x) == x
  {
    if x > 0 { OrZero(x / 2); }
  }

  lemma Powers()
    ensures Pow2(0) == 1 && Pow2(8) == 0x100 && Pow2(16) == 0x1_0000 && Pow2(24) == 0x100_0000
    ensures Pow2(32) == 0x1_0000_0000 && Pow2(40) == 0x100_0000_0000
    ensures Pow2(48) == 0x1_0000_0000_0000
  {
    PowStep(0);
    PowStep(8);
    PowStep(16);
    PowStep(24);
    PowStep(32);
    PowStep(40);
  }

  lemma PowStep(k: nat)
    ensures Pow2(k + 8) == 0x100 * Pow2(k)
  {
    assert Pow2(k + 2) == 4 * Pow2(k);
    assert Pow2(k + 4) == 4 * Pow2(k + 2);
    assert Pow2(k + 6) == 4 * Pow2(k + 4);
    assert Pow2(k + 8) == 4 * Pow2(k + 6);
  }

  lemma OrShifted(a: nat, x: nat, k: nat, p: nat)
    requires p == Pow2(k) && a < p && x * p < U64_LIMIT
    ensures Or(a, Shl(x, k)) == a + x * p
  {
    OrDisjoint(a, x, k);
    assert x * Pow2(k) % U64_LIMIT == x * Pow2(k);
  }

  /** The OR of shifted bytes is the positional value, and it fits 64 bits. */
  lemma UnpackIsPositional(t: EfiTime)
    ensures Unpack(t) == Positional(t) < U64_LIMIT
  {
    Powers();
    var v0 := Or(0, Shl(t[7] as int, 0));
    assert v0 == t[7] as int by { OrShifted(0, t[7] as int, 0, 1); }
    var v1 := Or(v0, Shl(t[6] as int, 8));
    assert v1 == v0 + 0x100 * t[6] as int by { OrShifted(v0, t[6] as int, 8, 0x100); }
    var v2 := Or(v1, Shl(t[5] as int, 16));
    assert v2 == v1 + 0x1_0000 * t[5] as int by { OrShifted(v1, t[5] as int, 16, 0x1_0000); }
    var v3 := Or(v2, Shl(t[4] as int, 24));
    assert v3 == v2 + 0x100_0000 * t[4] as int by { OrShifted(v2, t[4] as int, 24, 0x100_0000); }
    var v4 := Or(v3, Shl(t[3] as int, 32));
    assert v4 == v3 + 0x1_0000_0000 * t[3] as int by { OrShifted(v3, t[3] as int, 32, 0x1_0000_0000); }
    var v5 := Or(v4, Shl(t[2] as int, 40));
    assert v5 == v4 + 0x100_0000_0000 * t[2] as int by { OrShifted(v4, t[2] as int, 40, 0x100_0000_0000); }
    OrShifted(v5, Year(t), 48, 0x1_0000_0000_0000);
  }

  // ---------- the order ----------

  /** Lexicographic order on equally long field lists. */
  predicate LexLess(f: seq<nat>, g: seq<nat>)
    requires |f| == |g|
  {
    f != [] && (f[0] < g[0] || (f[0] == g[0] && LexLess(f[1..], g[1..])))
  }

  /** The number written with the base-256 digits `f` after the leading part `lead`. */
  function Horner(f: seq<nat>, lead: nat): (r: nat) {
    if f == [] then lead else Horner(f[1..], 0x100 * lead + f[0])
  }

  /** Comparing the numbers compares the leading parts and then the digits. */
  lemma {:induction false} HornerOrder(f: seq<nat>, g: seq<nat>, x: nat, y: nat)
    requires |f| == |g|
    requires forall i | 0 <= i < |f| :: f[i] < 0x100 && g[i] < 0x100
    ensures Horner(f, x) < Horner(g, y) <==> x < y || (x == y && LexLess(f, g))
    ensures Horner(f, x) == Horner(g, y) <==> x == y && f == g
  {
    if f != [] {
      HornerOrder(f[1..], g[1..], 0x100 * x + f[0], 0x100 * y + g[0]);
      assert f == [f[0]] + f[1..] && g == [g[0]] + g[1..];
    }
  }

  lemma PositionalIsHorner(t: EfiTime)
    ensures Positional(t) == Horner(Fields(t)[1..], Year(t))
  {
    var f := Fields(t);
    assert f[1..][1..] == f[2..] && f[2..][1..] == f[3..] && f[3..][1..] == f[4..];
    assert f[4..][1..] == f[5..] && f[5..][1..] == f[6..] && f[6..][1..] == [];
    var v5 := 0x100 * Year(t) + f[1];
    var v4 := 0x100 * v5 + f[2];
    var v3 := 0x100 * v4 + f[3];
    var v2 := 0x100 * v3 + f[4];
    var v1 := 0x100 * v2 + f[5];
    assert Horner(f[1..], Year(t)) == Horner(f[2..], v5) == Horner(f[3..], v4);
    assert Horner(f[3..], v4) == Horner(f[4..], v3) == Horner(f[5..], v2);
    assert Horner(f[5..], v2) == Horner(f[6..], v1) == 0x100 * v1 + f[6];
  }

  /** The packed values are ordered exactly as the fields are, and equal only for equal fields. */
  lemma UnpackIsLexicographic(a: EfiTime, b: EfiTime)
    ensures Unpack(a) < Unpack(b) <==> LexLess(Fields(a), Fields(b))
    ensures Unpack(a) == Unpack(b) <==> Fields(a) == Fields(b)
  {
    UnpackIsPositional(a);
    UnpackIsPositional(b);
    PositionalIsHorner(a);
    PositionalIsHorner(b);
    hide Unpack;
    hide Positional;
    hide Horner;
    var f, g := Fields(a), Fields(b);
    HornerOrder(f[1..], g[1..], f[0], g[0]);
    assert f == [f[0]] + f[1..] && g == [g[0]] + g[1..];
  }

  // ---------- the TS variable ----------

  type TsStore = s: bytes | |s| == TS_SIZE witness Zeros(TS_SIZE)

  function Slot(store: TsStore, k: nat): (r: EfiTime)
    requires k < 4
  {
    store[TIME_SIZE * k..TIME_SIZE * k + TIME_SIZE]
  }

  function SetSlot(store: TsStore, k: nat, t: EfiTime): (r: TsStore)
    requires k < 4
  {
    store[..TIME_SIZE * k] + t + store[TIME_SIZE * k + TIME_SIZE..]
  }

  lemma SetSlotReads(store: TsStore, k: nat, t: EfiTime, j: nat)
    requires k < 4 && j < 4
    ensures Slot(SetSlot(store, k, t), j) == if j == k then t else Slot(store, j)
  {
    var updated := SetSlot(store, k, t);
    if j != k {
      assert forall i | TIME_SIZE * j <= i < TIME_SIZE * j + TIME_SIZE :: updated[i] == store[i];
    }
  }

  function CheckTimestamp(key: bytes, t: EfiTime, store: TsStore): (r: int) {
    match SlotOf(key)
    case None => OPAL_INTERNAL_ERROR
    case Some(k) => if Unpack(t) > Unpack(Slot(store, k)) then OPAL_SUCCESS else OPAL_PERMISSION
  }

  /** The check passes exactly for a lexicographically later time. */
  lemma CheckIsLaterThan(key: bytes, t: EfiTime, store: TsStore)
    requires SlotOf(key).Some?
    ensures CheckTimestamp(key, t, store) == OPAL_SUCCESS
       <==> LexLess(Fields(Slot(store, SlotOf(key).value)), Fields(t))
  {
    UnpackIsLexicographic(Slot(store, SlotOf(key).value), t);
  }

  /** An update with time `b` passes when `a` is the stored time of its variable. */
  predicate MayFollow(key: bytes, store: TsStore, a: EfiTime, b: EfiTime)
    requires SlotOf(key).Some?
  {
    CheckTimestamp(key, b, SetSlot(store, SlotOf(key).value, a)) == OPAL_SUCCESS
  }

  lemma MayFollowIsLess(key: bytes, store: TsStore, a: EfiTime, b: EfiTime)
    requires SlotOf(key).Some?
    ensures MayFollow(key, store, a, b) <==> Unpack(a) < Unpack(b)
  {
    hide Unpack;
    SetSlotReads(store, SlotOf(key).value, a, SlotOf(key).value);
  }

  /** On valid times with pad1 zero the check is a strict total order of the readings. */
  lemma CheckIsStrictTotalOrder(key: bytes, store: TsStore, a: EfiTime, b: EfiTime, c: EfiTime)
    requires SlotOf(key).Some?
    requires forall t | t in {a, b, c} :: ValidateTime(t) == SUCCESS && t[7] == 0
    ensures !MayFollow(key, store, a, a)
    ensures !(MayFollow(key, store, a, b) && MayFollow(key, store, b, a))
    ensures MayFollow(key, store, a, b) && MayFollow(key, store, b, c) ==> MayFollow(key, store, a, c)
    ensures MayFollow(key, store, a, b) || MayFollow(key, store, b, a) || a[..7] == b[..7]
    ensures a[..7] == b[..7] ==> !MayFollow(key, store, a, b)
  {
    MayFollowIsLess(key, store, a, a);
    MayFollowIsLess(key, store, a, b);
    MayFollowIsLess(key, store, b, a);
    MayFollowIsLess(key, store, b, c);
    MayFollowIsLess(key, store, a, c);
    UnpackIsLexicographic(a, b);
    FieldsAreBytes(a, b);
    hide *;
  }

  lemma FieldsAreBytes(a: EfiTime, b: EfiTime)
    ensures Fields(a) == Fields(b) <==> a[..8] == b[..8]
    ensures a[7] == b[7] ==> (a[..8] == b[..8] <==> a[..7] == b[..7])
  {
    assert a[..8] == a[..7] + [a[7]] && b[..8] == b[..7] + [b[7]];
    var f, g := Fields(a), Fields(b);
    if f == g {
      assert f[0] == g[0] && f[1] == g[1] && f[2] == g[2] && f[3] == g[3];
      assert f[4] == g[4] && f[5] == g[5] && f[6] == g[6];
      assert a[0] == b[0] && a[1] == b[1];
    }
    assert forall i | 0 <= i < 8 :: a[i] == a[..8][i] && b[i] == b[..8][i];
  }

  /** `update_timestamp`: overwrites one slot of the buffer in place. */
  method UpdateTimestamp(key: bytes, t: EfiTime, store: array<byte>) returns (rc: int)
    requires store.Length >= TS_SIZE
    modifies store
    ensures rc == if SlotOf(key).Some? then OPAL_SUCCESS else OPAL_INTERNAL_ERROR
    ensures SlotOf(key).Some? ==> store[..TS_SIZE] == SetSlot(old(store[..TS_SIZE]), SlotOf(key).value, t)
    ensures SlotOf(key).None? ==> store[..TS_SIZE] == old(store[..TS_SIZE])
    ensures store[TS_SIZE..] == old(store[TS_SIZE..])
  {
    match SlotOf(key)
    case None => return OPAL_INTERNAL_ERROR;
    case Some(k) =>
      var base := TIME_SIZE * k;
      forall i | 0 <= i < TIME_SIZE {
        store[base + i] := t[i];
      }
      return OPAL_SUCCESS;
  }

  /** The times stand in the order PK, KEK, db, dbx, 16 bytes each. */
  lemma SlotsInOrder(pk: EfiTime, kek: EfiTime, db: EfiTime, dbx: EfiTime)
    ensures var store: TsStore := pk + kek + db + dbx;
            && SlotOf(PK_KEY) == Some(0) && Slot(store, 0) == pk && SlotOf(KEK_KEY) == Some(1) && Slot(store, 1) == kek
            && SlotOf(DB_KEY) == Some(2) && Slot(store, 2) == db && SlotOf(DBX_KEY) == Some(3) && Slot(store, 3) == dbx
  {
    StoredKeys();
    hide SlotOf;
    hide CStr;
  }

  // ---------- validation ----------

  /** `validateTime`: the ranges of the calendar fields (a leap second is allowed). */
  function ValidateTime(t: EfiTime): (r: int) {
    if Year(t) < 1900 || Year(t) > 9999 then INVALID_TIMESTAMP
    else if t[2] < 1 || t[2] > 12 then INVALID_TIMESTAMP
    else if t[3] < 1 || t[3] > 31 then INVALID_TIMESTAMP
    else if t[4] > 23 then INVALID_TIMESTAMP
    else if t[5] > 59 then INVALID_TIMESTAMP
    else if t[6] > 60 then INVALID_TIMESTAMP
    else SUCCESS
  }

  /**
   * Field by field: the year is stored low byte first; month, day, hour, minute, second and pad1 follow, and what
   * comes after is neither compared nor validated. A leap second is allowed.
   */
  lemma TimeByFields(year: nat, month: byte, day: byte, hour: byte, minute: byte, second: byte, pad1: byte, others: bytes)
    requires year < 0x1_0000 && |others| == 8
    ensures var t: EfiTime := [(year % 0x100) as byte, (year / 0x100) as byte, month, day, hour, minute, second, pad1] + others;
            && Fields(t) == [year, month as int, day as int, hour as int, minute as int, second as int, pad1 as int]
            && ValidateTime(t) == if && 1900 <= year <= 9999 && 1 <= month <= 12 && 1 <= day <= 31
                                     && hour <= 23 && minute <= 59 && second <= 60
                                  then SUCCESS else INVALID_TIMESTAMP
  {
    var t: EfiTime := [(year % 0x100) as byte, (year / 0x100) as byte, month, day, hour, minute, second, pad1] + others;
    assert Year(t) == year;
  }

  /** The variable holds four times, each in range. */
  function TsResult(data: bytes): (r: int) {
    if |data| == TS_SIZE && forall k | 0 <= k < 4 :: ValidateTime(Slot(data, k)) == SUCCESS then SUCCESS
    else INVALID_TIMESTAMP
  }

  /** `validateTS` */
  method ValidateTs(data: bytes) returns (rc: int)
    ensures rc == TsResult(data)
  {
    if |data| != TS_SIZE {
      return INVALID_TIMESTAMP;
    }
    var pointer, size := 0, |data|;
    while size > 0
      invariant pointer + size == TS_SIZE && pointer % TIME_SIZE == 0 && 0 <= size
      invariant forall k | 0 <= k < pointer / TIME_SIZE :: ValidateTime(Slot(data, k)) == SUCCESS
    {
      var current: EfiTime := data[pointer..pointer + TIME_SIZE];
      assert current == Slot(data, pointer / TIME_SIZE);
      rc := ValidateTime(current);
      if rc != SUCCESS {
        return;
      }
      pointer, size := pointer + TIME_SIZE, size - TIME_SIZE;
    }
    rc := SUCCESS;
  }
}
