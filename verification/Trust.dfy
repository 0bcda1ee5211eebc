/** The tool's validation of both banks, and the chain of trust it lets the engine keep. */
module Trust {
  import opened Bytes
  import opened Codes
  import opened Keys
  import opened Platform
  import opened Timestamp
  import opened Esl
  import opened EslValidate
  import opened Auth
  import opened PreImage
  import opened VerifySignature
  import opened EslListCheck
  import opened Update
  import opened Runs

  // ---------- validateBanks ----------

  /** The verdict on the updates: the first that is for TS or not a valid auth file decides. */
  function UpdatesResult(m: Platform, updates: seq<Var>): (r: int) {
    if updates == [] then SUCCESS
    else if CStr(updates[0].key) == TS then INVALID_VAR_NAME
    else if AuthResult(m, updates[0].key, updates[0].data) != SUCCESS then AuthResult(m, updates[0].key, updates[0].data)
    else UpdatesResult(m, updates[1..])
  }

  function CurrentResult(m: Platform, v: Var): (r: int) {
    if CStr(v.key) == TS then TsResult(v.data) else EslResult(m, v.key, v.data)
  }

  /** The verdict on the current variables: the first invalid one decides. */
  function CurrentsResult(m: Platform, bank: seq<Var>): (r: int) {
    if bank == [] then SUCCESS
    else if CurrentResult(m, bank[0]) != SUCCESS then CurrentResult(m, bank[0])
    else CurrentsResult(m, bank[1..])
  }

  /** `validateBanks`: without PK the current variables are not looked at. */
  function BanksResult(m: Platform, updates: seq<Var>, bank: seq<Var>): (r: int) {
    var rc := UpdatesResult(m, updates);
    if rc != SUCCESS then rc
    else if Find(bank, PK_KEY).Some? then CurrentsResult(m, bank)
    else SUCCESS
  }

  lemma {:induction false} ValidUpdate(m: Platform, updates: seq<Var>, u: Var)
    requires UpdatesResult(m, updates) == SUCCESS && u in updates
    ensures CStr(u.key) != TS && AuthResult(m, u.key, u.data) == SUCCESS
  {
    if u != updates[0] {
      assert u in updates[1..];
      ValidUpdate(m, updates[1..], u);
    }
  }

  lemma {:induction false} ValidCurrent(m: Platform, bank: seq<Var>, v: Var)
    requires CurrentsResult(m, bank) == SUCCESS && v in bank
    ensures CurrentResult(m, v) == SUCCESS
  {
    if v != bank[0] {
      assert v in bank[1..];
      ValidCurrent(m, bank[1..], v);
    }
  }

  lemma {:induction false} UpdatesExact(m: Platform, updates: seq<Var>)
    ensures UpdatesResult(m, updates) == SUCCESS
       <==> forall u | u in updates :: CStr(u.key) != TS && AuthResult(m, u.key, u.data) == SUCCESS
  {
    hide AuthResult;
    if updates != [] {
      assert updates == [updates[0]] + updates[1..];
      UpdatesExact(m, updates[1..]);
    }
  }

  lemma {:induction false} CurrentsExact(m: Platform, bank: seq<Var>)
    ensures CurrentsResult(m, bank) == SUCCESS
       <==> forall v | v in bank :: (if CStr(v.key) == TS then TsResult(v.data) else EslResult(m, v.key, v.data)) == SUCCESS
  {
    hide TsResult;
    hide EslResult;
    if bank != [] {
      assert bank == [bank[0]] + bank[1..];
      CurrentsExact(m, bank[1..]);
    }
  }

  /** The banks are valid exactly when every update is and, with PK present, every variable is. */
  lemma BanksExact(m: Platform, updates: seq<Var>, bank: seq<Var>)
    ensures BanksResult(m, updates, bank) == SUCCESS
       <==> && (forall u | u in updates :: CStr(u.key) != TS && AuthResult(m, u.key, u.data) == SUCCESS)
            && (Find(bank, PK_KEY).Some? ==>
                  forall v | v in bank ::
                    (if CStr(v.key) == TS then TsResult(v.data) else EslResult(m, v.key, v.data)) == SUCCESS)
  {
    UpdatesExact(m, updates);
    CurrentsExact(m, bank);
    hide UpdatesResult;
    hide CurrentsResult;
    hide AuthResult;
    hide TsResult;
    hide EslResult;
  }

  // ---------- what validation gives the engine ----------

  /** Every value is empty or at least one list header long. */
  predicate Shaped(bank: seq<Var>) {
    forall v | v in bank :: v.data == [] || |v.data| >= ESL_HEADER
  }

  /** The update is an auth file with an empty or a long enough value. */
  predicate ShapedUpdate(u: Var) {
    Splits(u.data) && (NewValue(u.data) == [] || |NewValue(u.data)| >= ESL_HEADER)
  }

  predicate ShapedUpdates(updates: seq<Var>) { forall u | u in updates :: ShapedUpdate(u) }

  lemma ValidatedUpdatesAreShaped(m: Platform, updates: seq<Var>)
    requires UpdatesResult(m, updates) == SUCCESS
    ensures ShapedUpdates(updates)
  {
    forall u | u in updates ensures ShapedUpdate(u) {
      ValidUpdate(m, updates, u);
      OneSplitPoint(m, u.key, u.data);
      if NewValue(u.data) != [] {
        ValidatedIsLong(m, u.key, NewValue(u.data));
      }
    }
  }

  lemma ValidatedVarIsLong(m: Platform, bank: seq<Var>, v: Var)
    requires CurrentsResult(m, bank) == SUCCESS && v in bank
    ensures |v.data| >= ESL_HEADER && (v.key == TS_KEY ==> |v.data| == TS_SIZE)
  {
    ValidCurrent(m, bank, v);
    StoredKeys();
    hide EslResult;
    hide CurrentsResult;
    if CStr(v.key) != TS {
      ValidatedIsLong(m, v.key, v.data);
    }
  }

  /** Variables added by pre-processing are empty or TS. */
  lemma ExtendedIsShaped(bank: seq<Var>, b: seq<Var>)
    requires Extends(bank, DEFAULTS, b) && forall v | v in bank :: |v.data| >= ESL_HEADER
    ensures Shaped(b)
  {
    DefaultsByKey();
  }

  lemma HoldingPkIsUserMode(bank: seq<Var>)
    requires Find(bank, PK_KEY).Some? && forall v | v in bank :: |v.data| >= ESL_HEADER
    ensures !PreProcess(State(bank, false)).setup
  {
    assert WithVar(bank, EMPTY_PK) == bank;
    hide WithVar;
    assert bank[Find(bank, PK_KEY).value] in bank;
  }

  /** With PK present, validated banks start the engine in user mode on a shaped bank. */
  lemma ValidatedBankIsShaped(m: Platform, bank: seq<Var>)
    requires UniqueKeys(bank) && Find(bank, PK_KEY).Some? && CurrentsResult(m, bank) == SUCCESS
    ensures TsOk(bank) && Shaped(PreProcess(State(bank, false)).bank) && !PreProcess(State(bank, false)).setup
  {
    hide CurrentsResult;
    hide UniqueKeys;
    hide Update.PreProcess;
    hide Extends;
    hide Shaped;
    forall v | v in bank ensures |v.data| >= ESL_HEADER && (v.key == TS_KEY ==> |v.data| == TS_SIZE) {
      ValidatedVarIsLong(m, bank, v);
    }
    assert TsOk(bank);
    PreProcessEstablishes(State(bank, false));
    ExtendedIsShaped(bank, PreProcess(State(bank, false)).bank);
    HoldingPkIsUserMode(bank);
  }

  lemma ReplacedIsShaped(bank: seq<Var>, u: Var, data: Blob, time: EfiTime, next: seq<Var>)
    requires HasTs(bank) && Shaped(bank) && Replaced(bank, u, data, time, next)
    requires data == [] || |data| >= ESL_HEADER
    ensures Shaped(next)
  {
    forall j | 0 <= j < |next| ensures next[j].data == [] || |next[j].data| >= ESL_HEADER {
      assert bank[j] in bank;
    }
  }

  lemma {:induction false} QueueKeepsShaped(m: Platform, setup: bool, bank: seq<Var>, updates: seq<Var>)
    requires HasTs(bank) && Shaped(bank) && ShapedUpdates(updates) && Fold(m, setup, bank, updates).Done?
    ensures Shaped(Fold(m, setup, bank, updates).bank)
    decreases |updates|
  {
    hide Step;
    if updates != [] {
      var u := updates[0];
      assert u in updates;
      StepEffect(m, setup, bank, u);
      var next := Step(m, setup, bank, u).bank;
      ReplacedIsShaped(bank, u, NewValue(u.data), TimeOf(u.data), next);
      QueueKeepsShaped(m, setup, next, updates[1..]);
    }
  }

  /** Some certificate of the value passes the verification of the update's message. */
  predicate VerifiedBy(m: Platform, u: Var, held: Blob)
    requires Splits(u.data) && Signable(u.key)
  {
    && |held| >= ESL_HEADER
    && m.pkcs7(Message(u.data)).Some?
    && HasFirstPassing(m, m.pkcs7(Message(u.data)).value, Digest(m, u.key, u.data), Reached(held))
  }

  /** An update accepted in user mode got through the loop over its authorities. */
  lemma AcceptedTriesAuthorities(m: Platform, bank: seq<Var>, u: Var)
    requires HasTs(bank) && Step(m, false, bank, u).Done?
    ensures Splits(u.data) && Signable(u.key)
    ensures TryAuthorities(m, Message(u.data), Digest(m, u.key, u.data), Authorities(u.key), bank,
                           CheckResult(m, u.key, NewValue(u.data))) == OPAL_SUCCESS
  {
    hide CheckTimestamp;
    hide CheckResult;
    hide TryAuthorities;
    hide Digest;
    hide Apply;
    hide Find;
  }

  lemma PassingAuthority(m: Platform, bank: seq<Var>, u: Var, name: bytes)
    requires Shaped(bank) && Splits(u.data) && Signable(u.key) && Held(bank, name) != []
    requires VerifyResult(m, Message(u.data), Digest(m, u.key, u.data), Held(bank, name)) == OPAL_SUCCESS
    ensures VerifiedBy(m, u, Held(bank, name))
  {
    HeldIsShaped(bank, name);
    VerifyMeansPassing(m, Message(u.data), Digest(m, u.key, u.data), Held(bank, name));
    hide Held;
    hide Digest;
    hide VerifyResult;
    hide HasFirstPassing;
  }

  /**
   * One accepted update in user mode on a shaped bank: its message passes the verification with a certificate held at
   * that moment by one of its authorities, or it empties its variable while none of its authorities holds anything.
   */
  lemma AcceptedIsVerified(m: Platform, bank: seq<Var>, u: Var)
    requires HasTs(bank) && Shaped(bank) && ShapedUpdate(u) && Step(m, false, bank, u).Done?
    ensures Splits(u.data) && Signable(u.key)
    ensures || (exists a | a in Authorities(u.key) :: VerifiedBy(m, u, Held(bank, a)))
            || (NewValue(u.data) == [] && forall a | a in Authorities(u.key) :: Held(bank, a) == [])
    ensures CheckResult(m, u.key, NewValue(u.data)) > 0 ==> exists a | a in Authorities(u.key) :: VerifiedBy(m, u, Held(bank, a))
  {
    AcceptedTriesAuthorities(m, bank, u);
    hide Step;
    hide Splits;
    hide Signable;
    hide Shaped;
    hide CheckResult;
    hide TryAuthorities;
    hide VerifyResult;
    hide VerifiedBy;
    hide Digest;
    hide Message;
    hide NewValue;
    hide Held;
    hide Authorities;
    var count := CheckResult(m, u.key, NewValue(u.data));
    var message, digest := Message(u.data), Digest(m, u.key, u.data);
    TryAuthoritiesExact(m, message, digest, Authorities(u.key), bank, count);
    CountOfShaped(m, u.key, NewValue(u.data));
    if a :| a in Authorities(u.key) && Held(bank, a) != [] && VerifyResult(m, message, digest, Held(bank, a)) == OPAL_SUCCESS {
      PassingAuthority(m, bank, u, a);
    }
  }

  lemma CountOfShaped(m: Platform, key: bytes, esl: bytes)
    requires esl == [] || |esl| >= ESL_HEADER
    ensures CheckResult(m, key, esl) == 0 <==> esl == []
  {
    CheckExact(m, key, esl);
    if |esl| >= ESL_HEADER && Stride(esl) > 0 {
      RoundsAreQuotient(|esl| - ESL_HEADER, Stride(esl));
    }
  }

  lemma HeldIsShaped(bank: seq<Var>, name: bytes)
    requires Shaped(bank)
    ensures Held(bank, name) == [] || |Held(bank, name)| >= ESL_HEADER
  {
    if Find(bank, Terminated(name)).Some? {
      assert bank[Find(bank, Terminated(name)).value] in bank;
    }
  }

  /** PK vouches for PK and KEK; KEK or PK for db and dbx. */
  predicate Trusted(m: Platform, bank: seq<Var>, u: Var)
    requires Splits(u.data) && Signable(u.key)
  {
    if KeyEquals(u.key, DB) || KeyEquals(u.key, DBX) then VerifiedBy(m, u, Held(bank, KEK)) || VerifiedBy(m, u, Held(bank, PK))
    else VerifiedBy(m, u, Held(bank, PK))
  }

  lemma AuthoritiesAreTrusted(m: Platform, bank: seq<Var>, u: Var)
    requires Splits(u.data) && Signable(u.key)
    ensures (exists a | a in Authorities(u.key) :: VerifiedBy(m, u, Held(bank, a))) <==> Trusted(m, bank, u)
  {
    hide VerifiedBy;
    hide Held;
    var names := Authorities(u.key);
    assert names == [PK] || names == [KEK, PK];
    assert names[|names| - 1] == PK && PK in names;
    if |names| == 2 {
      assert names[0] == KEK && KEK in names;
    }
  }

  /**
   * The chain of trust over a whole queue. After the banks passed validation with PK present, whenever the first `i`
   * updates were accepted and left `mid`, every authority there is empty or at least a header long, and if update `i`
   * is accepted with a positive list count, its message passes the verification with a certificate then held by PK (for
   * PK and KEK) or by KEK or PK (for db and dbx).
   */
  lemma ChainOfTrust(m: Platform, bank: seq<Var>, updates: seq<Var>, i: nat)
    requires UniqueKeys(bank) && Find(bank, PK_KEY).Some? && BanksResult(m, updates, bank) == SUCCESS
    requires i < |updates|
    requires var st := PreProcess(State(bank, false));
             HasTs(st.bank) && Fold(m, st.setup, st.bank, updates[..i]).Done?
    ensures var st := PreProcess(State(bank, false));
            var mid := Fold(m, st.setup, st.bank, updates[..i]).bank;
            var u := updates[i];
            && !st.setup && HasTs(mid) && Shaped(mid)
            && (forall name :: Held(mid, name) == [] || |Held(mid, name)| >= ESL_HEADER)
            && (Step(m, st.setup, mid, u).Done? && CheckResult(m, u.key, NewValueOf(u)) > 0 ==>
                 Splits(u.data) && Signable(u.key) && Trusted(m, mid, u))
  {
    ValidatedUpdatesAreShaped(m, updates);
    ValidatedBankIsShaped(m, bank);
    var st := PreProcess(State(bank, false));
    var mid := Fold(m, st.setup, st.bank, updates[..i]).bank;
    FoldKeepsShape(m, st.setup, st.bank, updates[..i]);
    QueueKeepsShaped(m, st.setup, st.bank, updates[..i]);
    forall name ensures Held(mid, name) == [] || |Held(mid, name)| >= ESL_HEADER {
      HeldIsShaped(mid, name);
    }
    assert updates[i] in updates;
    if Step(m, st.setup, mid, updates[i]).Done? {
      AcceptedIsVerified(m, mid, updates[i]);
      AuthoritiesAreTrusted(m, mid, updates[i]);
    }
  }

  /** Update `i` met an accepted queue and, if it counts a list, is vouched for in the state its predecessors left. */
  predicate TrustedAt(m: Platform, st: State, updates: seq<Var>, i: nat)
    requires HasTs(st.bank) && i < |updates|
  {
    match Fold(m, st.setup, st.bank, updates[..i])
    case Halted(_) => false
    case Done(mid) =>
      var u := updates[i];
      && Splits(u.data) && Signable(u.key)
      && (CheckResult(m, u.key, NewValue(u.data)) > 0 ==> Trusted(m, mid, u))
  }

  /** Every update of a queue that passes on validated banks is trusted where it stands. */
  lemma PassedQueueIsTrusted(m: Platform, bank: seq<Var>, updates: seq<Var>, i: nat)
    requires UniqueKeys(bank) && Find(bank, PK_KEY).Some? && BanksResult(m, updates, bank) == SUCCESS
    requires i < |updates|
    requires var st := PreProcess(State(bank, false)); HasTs(st.bank) && Fold(m, st.setup, st.bank, updates).Done?
    ensures TrustedAt(m, PreProcess(State(bank, false)), updates, i)
  {
    var st := PreProcess(State(bank, false));
    QueuePassesExactly(m, st.setup, st.bank, updates);
    hide BanksResult;
    hide Update.PreProcess;
    hide Step;
    hide Fold;
    hide Trusted;
    hide CheckResult;
    assert AcceptedAt(m, st.setup, st.bank, updates, i);
    ChainOfTrust(m, bank, updates, i);
    StepIsSplit(m, st.setup, Fold(m, st.setup, st.bank, updates[..i]).bank, updates[i]);
  }

  lemma StepIsSplit(m: Platform, setup: bool, bank: seq<Var>, u: Var)
    requires HasTs(bank) && Step(m, setup, bank, u).Done?
    ensures Splits(u.data) && Signable(u.key)
  {
    StepEffect(m, setup, bank, u);
  }

  /** The value carried by an update, empty when it does not even split. */
  function NewValueOf(u: Var): (r: Blob) {
    if Splits(u.data) then NewValue(u.data) else []
  }
}
