/** What one update, a queue of updates, and a run of the engine do to the bank of variables, as functions. */
module Update {
  import opened Bytes
  import opened Codes
  import opened Keys
  import opened Platform
  import opened Timestamp
  import opened Auth
  import opened PreImage
  import opened VerifySignature
  import opened EslListCheck

  /** The flag word: bit 0, bit 1, and whatever the other bits are. */
  datatype Flags = Flags(isVolatile: bool, isProtected: bool, others: nat)

  const NO_FLAGS := Flags(false, false, 0)
  const VOLATILE := Flags(true, false, 0)
  const VOLATILE_PROTECTED := Flags(true, true, 0)

  /** The value of a `struct secvar`; the key includes its terminator. */
  datatype Var = Var(key: bytes, data: Blob, flags: Flags)

  /** `find_secvar`: the first variable with exactly this key. */
  function Find(bank: seq<Var>, key: bytes): (r: Option<nat>)
    ensures r.Some? ==> r.value < |bank| && bank[r.value].key == key
    ensures r.Some? ==> forall i | 0 <= i < r.value :: bank[i].key != key
    ensures r.None? ==> forall i | 0 <= i < |bank| :: bank[i].key != key
  {
    if bank == [] then None
    else if bank[0].key == key then Some(0)
    else
      match Find(bank[1..], key)
      case None => None
      case Some(i) => Some(i + 1)
  }

  /** The value held for `name`, empty when the variable is missing. */
  function Held(bank: seq<Var>, name: bytes): (r: Blob) {
    match Find(bank, Terminated(name))
    case None => []
    case Some(i) => bank[i].data
  }

  /** The TS variable is present and holds one time per variable. */
  predicate HasTs(bank: seq<Var>) {
    Find(bank, TS_KEY).Some? && |bank[Find(bank, TS_KEY).value].data| == TS_SIZE
  }

  function TsIndex(bank: seq<Var>): (i: nat)
    requires HasTs(bank)
    ensures i < |bank| && bank[i].key == TS_KEY && |bank[i].data| == TS_SIZE
  {
    Find(bank, TS_KEY).value
  }

  function Store(bank: seq<Var>): (r: TsStore)
    requires HasTs(bank)
  {
    bank[TsIndex(bank)].data
  }

  // ---------- one update ----------

  datatype Decision = Reject(rc: int) | Accept(esl: Blob, time: EfiTime)

  /** The loop over the authorities: empty ones are skipped, the first that verifies ends it, else the last code stays. */
  function TryAuthorities(m: Platform, message: bytes, digest: bytes, names: seq<bytes>, bank: seq<Var>, rc: int): (r: int) {
    if names == [] then rc
    else if Held(bank, names[0]) == [] then TryAuthorities(m, message, digest, names[1..], bank, rc)
    else
      var verified := VerifyResult(m, message, digest, Held(bank, names[0]));
      if verified == OPAL_SUCCESS then OPAL_SUCCESS
      else TryAuthorities(m, message, digest, names[1..], bank, verified)
  }

  /** The digest a signature over this update must cover. */
  function Digest(m: Platform, key: bytes, data: Blob): (r: bytes)
    requires Splits(data) && Signable(key)
  {
    m.hash(SignedBytes(key, TimeOf(data), NewValue(data)))
  }

  /** `process_update` */
  function Decide(m: Platform, setup: bool, u: Var, bank: seq<Var>, store: TsStore): (d: Decision)
    ensures d.Reject? ==> d.rc != 0
    ensures d.Accept? ==> Signable(u.key) && Splits(u.data) && d.esl == NewValue(u.data) && d.time == TimeOf(u.data)
  {
    if !Splits(u.data) then Reject(DescriptorSize(u.data))
    else
      var check := CheckTimestamp(u.key, TimeOf(u.data), store);
      if check != OPAL_SUCCESS then Reject(check)
      else
        var count := CheckResult(m, u.key, NewValue(u.data));
        if count < 0 then Reject(count)
        else if setup then Accept(NewValue(u.data), TimeOf(u.data))
        else if !Signable(u.key) then Reject(OPAL_INTERNAL_ERROR)
        else
          var digest := Digest(m, u.key, u.data);
          var rc := TryAuthorities(m, Message(u.data), digest, Authorities(u.key), bank, count);
          if rc == OPAL_SUCCESS then Accept(NewValue(u.data), TimeOf(u.data)) else Reject(rc)
  }

  /** The flags after an update: volatile exactly when the value is empty, protected for PK. */
  function UpdatedFlags(key: bytes, flags: Flags, data: bytes): (r: Flags) {
    flags.(isVolatile := data == [],
           isProtected := flags.isProtected || KeyEquals(key, PK) || KeyEquals(key, HWKH))
  }

  function Installed(was: Var, u: Var, data: Blob): (r: Var) {
    Var(was.key, data, UpdatedFlags(u.key, was.flags, data))
  }

  datatype StepResult = Halted(rc: int) | Done(bank: seq<Var>)

  /** The bank after installing a value for the variable at `i` and storing its time. */
  function Apply(bank: seq<Var>, i: nat, u: Var, data: Blob, time: EfiTime): (r: seq<Var>)
    requires HasTs(bank) && i < |bank| && Signable(u.key)
  {
    var written := bank[i := Installed(bank[i], u, data)];
    var ts := TsIndex(bank);
    written[ts := written[ts].(data := SetSlot(Store(bank), SlotOf(u.key).value, time))]
  }

  /** One round of the queue loop: decide, install the value, store the time. */
  function Step(m: Platform, setup: bool, bank: seq<Var>, u: Var): (r: StepResult)
    requires HasTs(bank)
    ensures r.Halted? ==> r.rc != 0
  {
    match Decide(m, setup, u, bank, Store(bank))
    case Reject(rc) => Halted(rc)
    case Accept(esl, time) =>
      match Find(bank, u.key)
      case None => Halted(OPAL_EMPTY)
      case Some(i) => Done(Apply(bank, i, u, esl, time))
  }

  /** `next` is `bank` with the variable of `u` and that variable's own time replaced, and nothing else. */
  predicate Replaced(bank: seq<Var>, u: Var, data: Blob, time: EfiTime, next: seq<Var>)
    requires HasTs(bank)
  {
    && Signable(u.key) && Find(bank, u.key).Some?
    && |next| == |bank| && HasTs(next)
    && var i, ts := Find(bank, u.key).value, TsIndex(bank);
       && i != ts && TsIndex(next) == ts
       && next[i] == Installed(bank[i], u, data)
       && next[ts].flags == bank[ts].flags
       && Store(next) == SetSlot(Store(bank), SlotOf(u.key).value, time)
       && forall j | 0 <= j < |bank| && j != i && j != ts :: next[j] == bank[j]
  }

  predicate SameKeys(a: seq<Var>, b: seq<Var>) {
    |a| == |b| && forall j | 0 <= j < |a| :: a[j].key == b[j].key
  }

  /** TS is not one of the variables that can be updated. */
  lemma UpdatedIsNotTs(bank: seq<Var>, i: nat, key: bytes)
    requires HasTs(bank) && Signable(key) && Find(bank, key) == Some(i)
    ensures i != TsIndex(bank)
  {
    StoredKeys();
    hide Find;
  }

  /** Two writes at different places, one of which keeps the key of TS. */
  lemma ApplyWrites(bank: seq<Var>, i: nat, u: Var, data: Blob, time: EfiTime)
    requires HasTs(bank) && Signable(u.key) && i < |bank| && i != TsIndex(bank)
    ensures var next, ts := Apply(bank, i, u, data, time), TsIndex(bank);
            && SameKeys(bank, next)
            && next[i] == Installed(bank[i], u, data)
            && next[ts] == bank[ts].(data := SetSlot(Store(bank), SlotOf(u.key).value, time))
            && forall j | 0 <= j < |bank| && j != i && j != ts :: next[j] == bank[j]
  {
    hide HasTs;
    hide UpdatedFlags;
    hide SetSlot;
    hide SlotOf;
  }

  lemma ApplyEffect(bank: seq<Var>, i: nat, u: Var, data: Blob, time: EfiTime)
    requires HasTs(bank) && Signable(u.key) && Find(bank, u.key) == Some(i)
    ensures SameKeys(bank, Apply(bank, i, u, data, time))
    ensures Replaced(bank, u, data, time, Apply(bank, i, u, data, time))
  {
    UpdatedIsNotTs(bank, i, u.key);
    ApplyWrites(bank, i, u, data, time);
    SameKeysSameFind(bank, Apply(bank, i, u, data, time), TS_KEY);
    hide Apply;
    hide Installed;
    hide SetSlot;
    hide SlotOf;
    hide Find;
    hide SameKeys;
  }

  /** A step changes the variable updated and that variable's own time, and nothing else. */
  lemma StepEffect(m: Platform, setup: bool, bank: seq<Var>, u: Var)
    requires HasTs(bank) && Step(m, setup, bank, u).Done?
    ensures var next := Step(m, setup, bank, u).bank;
            && Splits(u.data)
            && Replaced(bank, u, NewValue(u.data), TimeOf(u.data), next)
            && SameKeys(bank, next)
  {
    ApplyEffect(bank, Find(bank, u.key).value, u, NewValue(u.data), TimeOf(u.data));
  }

  lemma {:induction false} SameKeysSameFind(a: seq<Var>, b: seq<Var>, key: bytes)
    requires SameKeys(a, b)
    ensures Find(a, key) == Find(b, key)
  {
    if a != [] {
      SameKeysSameFind(a[1..], b[1..], key);
    }
  }

  /**
   * In user mode the loop over the authorities succeeds exactly when one holding data verifies the message, or when
   * none holds data and the code left by the format check is already 0.
   */
  lemma {:induction false} TryAuthoritiesExact(m: Platform, message: bytes, digest: bytes, names: seq<bytes>, bank: seq<Var>, rc: int)
    ensures TryAuthorities(m, message, digest, names, bank, rc) == OPAL_SUCCESS
       <==> || (exists a | a in names :: Held(bank, a) != [] && VerifyResult(m, message, digest, Held(bank, a)) == OPAL_SUCCESS)
            || (rc == OPAL_SUCCESS && forall a | a in names :: Held(bank, a) == [])
  {
    if names != [] {
      var a, rest := names[0], names[1..];
      assert names == [a] + rest;
      if Held(bank, a) == [] {
        TryAuthoritiesExact(m, message, digest, rest, bank, rc);
      } else {
        TryAuthoritiesExact(m, message, digest, rest, bank, VerifyResult(m, message, digest, Held(bank, a)));
      }
    }
  }

  // ---------- a queue ----------

  /** The updates applied in order, each against the state its predecessors left; the first failure ends it. */
  function Fold(m: Platform, setup: bool, bank: seq<Var>, updates: seq<Var>): (r: StepResult)
    requires HasTs(bank)
    ensures r.Halted? ==> r.rc != 0
    decreases |updates|
  {
    if updates == [] then Done(bank)
    else
      match Step(m, setup, bank, updates[0])
      case Halted(rc) => Halted(rc)
      case Done(next) =>
        StepEffect(m, setup, bank, updates[0]);
        Fold(m, setup, next, updates[1..])
  }

  /** A queue keeps the variables and their order. */
  lemma {:induction false} FoldKeepsShape(m: Platform, setup: bool, bank: seq<Var>, updates: seq<Var>)
    requires HasTs(bank) && Fold(m, setup, bank, updates).Done?
    ensures var last := Fold(m, setup, bank, updates).bank;
            HasTs(last) && SameKeys(bank, last)
    decreases |updates|
  {
    if updates != [] {
      var next := Step(m, setup, bank, updates[0]).bank;
      StepEffect(m, setup, bank, updates[0]);
      FoldKeepsShape(m, setup, next, updates[1..]);
    }
  }

  /** A queue is processed like its first part and then its second. */
  lemma {:induction false} FoldAppend(m: Platform, setup: bool, bank: seq<Var>, first: seq<Var>, second: seq<Var>)
    requires HasTs(bank)
    ensures match Fold(m, setup, bank, first)
            case Halted(rc) => Fold(m, setup, bank, first + second) == Halted(rc)
            case Done(mid) => HasTs(mid) && Fold(m, setup, bank, first + second) == Fold(m, setup, mid, second)
    decreases |first|
  {
    hide Step;
    var all := first + second;
    if first == [] {
      assert all == second;
    } else {
      assert all[0] == first[0] && all[1..] == first[1..] + second;
      var r := Step(m, setup, bank, first[0]);
      if r.Done? {
        StepEffect(m, setup, bank, first[0]);
        FoldAppend(m, setup, r.bank, first[1..], second);
      }
    }
  }

  // ---------- a run ----------

  /** The variable bank and the global `setup_mode`. */
  datatype State = State(bank: seq<Var>, setup: bool)

  function WithVar(bank: seq<Var>, v: Var): (r: seq<Var>) {
    if Find(bank, v.key).Some? then bank else bank + [v]
  }

  function WithAll(bank: seq<Var>, vs: seq<Var>): (r: seq<Var>)
    decreases |vs|
  {
    if vs == [] then bank else WithAll(WithVar(bank, vs[0]), vs[1..])
  }

  const EMPTY_PK := Var(PK_KEY, [], VOLATILE_PROTECTED)
  const EMPTY_KEK := Var(KEK_KEY, [], VOLATILE)
  const EMPTY_DB := Var(DB_KEY, [], VOLATILE)
  const EMPTY_DBX := Var(DBX_KEY, [], VOLATILE)
  const ZERO_TS := Var(TS_KEY, Zeros(TS_SIZE), NO_FLAGS)
  const DEFAULTS := [EMPTY_PK, EMPTY_KEK, EMPTY_DB, EMPTY_DBX, ZERO_TS]

  /**
   * `edk2_compat_pre_process`: missing variables are added in a fixed order, empty and volatile but for TS; the mode
   * is read off PK once PK is there.
   */
  function PreProcess(st: State): (r: State) {
    State(WithAll(st.bank, DEFAULTS), Held(WithVar(st.bank, EMPTY_PK), PK) == [])
  }

  /** `edk2_compat_process` on a bank that has the TS variable. */
  function Process(m: Platform, st: State, updates: seq<Var>): (r: (int, State))
    requires HasTs(st.bank)
  {
    if updates == [] then (OPAL_EMPTY, st)
    else
      var result := Fold(m, st.setup, st.bank, updates);
      var bank := if result.Done? then result.bank else st.bank;
      var rc := if result.Done? then OPAL_SUCCESS else result.rc;
      if Find(bank, PK_KEY).None? then (OPAL_INTERNAL_ERROR, State(bank, st.setup))
      else (rc, State(bank, Held(bank, PK) == []))
  }
}
