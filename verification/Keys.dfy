/** The variable names, how the code compares them, and who may sign what. */
module Keys {
  import opened Bytes

  const PK: bytes := [0x50, 0x4B]
  const KEK: bytes := [0x4B, 0x45, 0x4B]
  const DB: bytes := [0x64, 0x62]
  const DBX: bytes := [0x64, 0x62, 0x78]
  const TS: bytes := [0x54, 0x53]
  const HWKH: bytes := [0x48, 0x57, 0x4B, 0x48]

  const PK_KEY := Terminated(PK)
  const KEK_KEY := Terminated(KEK)
  const DB_KEY := Terminated(DB)
  const DBX_KEY := Terminated(DBX)
  const TS_KEY := Terminated(TS)

  /** The `key_equals` macro: a comparison of C strings, whatever follows the terminator. */
  predicate KeyEquals(key: bytes, name: bytes) { CStr(key) == name }

  /** Position of the variable's timestamp in TS; other names have none. */
  function SlotOf(key: bytes): (s: Option<nat>)
    ensures s.Some? ==> s.value < 4
  {
    if KeyEquals(key, PK) then Some(0)
    else if KeyEquals(key, KEK) then Some(1)
    else if KeyEquals(key, DB) then Some(2)
    else if KeyEquals(key, DBX) then Some(3)
    else None
  }

  /** The names of the variables whose certificates may sign an update of `key`, in the order they are tried. */
  function Authorities(key: bytes): (r: seq<bytes>) {
    if KeyEquals(key, PK) then [PK]
    else if KeyEquals(key, KEK) then [PK]
    else if KeyEquals(key, DB) || KeyEquals(key, DBX) then [KEK, PK]
    else []
  }

  /** The stored keys have the names they were made from, so they are told apart by name. */
  lemma StoredKeys()
    ensures CStr(PK_KEY) == PK && CStr(KEK_KEY) == KEK && CStr(DB_KEY) == DB
    ensures CStr(DBX_KEY) == DBX && CStr(TS_KEY) == TS
    ensures SlotOf(PK_KEY) == Some(0) && SlotOf(KEK_KEY) == Some(1)
    ensures SlotOf(DB_KEY) == Some(2) && SlotOf(DBX_KEY) == Some(3) && SlotOf(TS_KEY) == None
  {
    CStrOfTerminated(PK);
    CStrOfTerminated(KEK);
    CStrOfTerminated(DB);
    CStrOfTerminated(DBX);
    CStrOfTerminated(TS);
  }
}
