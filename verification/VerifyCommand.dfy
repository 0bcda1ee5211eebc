/** The `verify` command on heap banks: validation, pre-processing, processing, and submission of the updates. */
module VerifyCommand {
  import opened Bytes
  import opened Codes
  import opened Keys
  import opened Platform
  import opened Timestamp
  import opened EslValidate
  import opened Auth
  import opened Update
  import opened Runs
  import opened Trust
  import opened SecvarBank
  import opened Engine

  // ---------- validation ----------

  /** The first loop of `validateBanks`. */
  method ValidateUpdates(m: Platform, updateBank: Bank) returns (rc: int)
    requires updateBank.Valid()
    ensures rc == UpdatesResult(m, updateBank.Contents)
  {
    hide Bank.Valid;
    hide Bank.NodeAt;
    hide AuthResult;
    ghost var all := updateBank.Contents;
    var i := updateBank.First();
    ghost var k := 0;
    assert all[0..] == all;
    rc := SUCCESS;
    while true
      invariant 0 <= k <= |all| && i == updateBank.NodeAt(k) && rc == SUCCESS
      invariant UpdatesResult(m, all) == UpdatesResult(m, all[k..])
      decreases |all| - k
    {
      var u, nxt := updateBank.Visit(i, k);
      if u == null {
        return;
      }
      assert all[k..][0] == u.value && all[k..][1..] == all[k + 1..];
      if CStr(u.key) == TS {
        return INVALID_VAR_NAME;
      }
      rc := ValidateAuth(m, u.data[..u.dataSize], u.key);
      if rc != SUCCESS {
        return;
      }
      i := nxt;
      k := k + 1;
    }
  }

  /** The second loop of `validateBanks`. */
  method ValidateCurrents(m: Platform, variableBank: Bank) returns (rc: int)
    requires variableBank.Valid()
    ensures rc == CurrentsResult(m, variableBank.Contents)
  {
    hide Bank.Valid;
    hide Bank.NodeAt;
    hide EslResult;
    hide TsResult;
    ghost var all := variableBank.Contents;
    var i := variableBank.First();
    ghost var k := 0;
    assert all[0..] == all;
    rc := SUCCESS;
    while true
      invariant 0 <= k <= |all| && i == variableBank.NodeAt(k) && rc == SUCCESS
      invariant CurrentsResult(m, all) == CurrentsResult(m, all[k..])
      decreases |all| - k
    {
      var v, nxt := variableBank.Visit(i, k);
      if v == null {
        return;
      }
      assert all[k..][0] == v.value && all[k..][1..] == all[k + 1..];
      if CStr(v.key) == TS {
        rc := ValidateTs(v.data[..v.dataSize]);
      } else {
        var payloads, offset;
        rc, payloads, offset := ValidateEsl(m, v.key, v.data[..v.dataSize]);
      }
      if rc != SUCCESS {
        return;
      }
      i := nxt;
      k := k + 1;
    }
  }

  /** `validateBanks` */
  method ValidateBanks(m: Platform, updateBank: Bank, variableBank: Bank) returns (rc: int)
    requires updateBank.Valid() && variableBank.Valid()
    ensures rc == BanksResult(m, updateBank.Contents, variableBank.Contents)
  {
    rc := ValidateUpdates(m, updateBank);
    if rc != SUCCESS {
      return;
    }
    var pk := variableBank.FindVar(PK_KEY);
    if pk != null {
      rc := ValidateCurrents(m, variableBank);
    }
  }

  // ---------- submission ----------

  datatype Submission = Submission(key: bytes, data: bytes)

  /** The update files of the firmware; `outcome` says how the write number `n` ends. */
  class UpdateFiles {
    const outcome: (nat, bytes, bytes) -> int
    var count: nat
    /** the writes that succeeded, in order */
    ghost var log: seq<Submission>

    /** `updateVar` */
    method UpdateVar(key: bytes, data: bytes) returns (rc: int)
      modifies this
      ensures rc == outcome(old(count), key, data) && count == old(count) + 1
      ensures log == if rc == SUCCESS then old(log) + [Submission(key, data)] else old(log)
    {
      rc := outcome(count, key, data);
      count := count + 1;
      if rc == SUCCESS {
        log := log + [Submission(key, data)];
      }
    }
  }

  /** How submitting a queue ends after `done` was written and when write `n` is next: the code, and all that was written. */
  function Submit(outcome: (nat, bytes, bytes) -> int, n: nat, done: seq<Submission>, updates: seq<Var>): (r: (int, seq<Submission>))
    decreases |updates|
  {
    if updates == [] then (SUCCESS, done)
    else
      var key, data := updates[0].key, updates[0].data;
      var rc := outcome(n, key, data);
      if rc != SUCCESS then (rc, done) else Submit(outcome, n + 1, done + [Submission(key, data)], updates[1..])
  }

  /** The files of a queue, in its order. */
  function Submissions(updates: seq<Var>): (s: seq<Submission>)
    ensures |s| == |updates| && forall i | 0 <= i < |updates| :: s[i] == Submission(updates[i].key, updates[i].data)
  {
    if updates == [] then [] else [Submission(updates[0].key, updates[0].data)] + Submissions(updates[1..])
  }

  /** What is written is a prefix of the queue, in its order, and all of it exactly on success. */
  lemma {:induction false} SubmitsInOrder(outcome: (nat, bytes, bytes) -> int, n: nat, done: seq<Submission>, updates: seq<Var>)
    ensures var (rc, log) := Submit(outcome, n, done, updates);
            && done <= log <= done + Submissions(updates)
            && (rc == SUCCESS <==> log == done + Submissions(updates))
    decreases |updates|
  {
    if updates == [] {
      assert done + Submissions(updates) == done;
    } else {
      var first := Submission(updates[0].key, updates[0].data);
      assert done + Submissions(updates) == done + [first] + Submissions(updates[1..]);
      SubmitsInOrder(outcome, n + 1, done + [first], updates[1..]);
    }
  }

  /** The code of a failure is that of the first write that failed, which is the one behind those that were made. */
  lemma {:induction false} FailureCode(outcome: (nat, bytes, bytes) -> int, n: nat, done: seq<Submission>, updates: seq<Var>)
    requires Submit(outcome, n, done, updates).0 != SUCCESS
    ensures var (rc, log) := Submit(outcome, n, done, updates);
            && |done| <= |log| < |done| + |updates|
            && var k := |log| - |done|; rc == outcome(n + k, updates[k].key, updates[k].data)
    decreases |updates|
  {
    var u, rest := updates[0], updates[1..];
    if outcome(n, u.key, u.data) == SUCCESS {
      var more := done + [Submission(u.key, u.data)];
      FailureCode(outcome, n + 1, more, rest);
      var k := |Submit(outcome, n + 1, more, rest).1| - |more|;
      assert rest[k] == updates[k + 1];
    }
  }

  /** `commitUpdateBank`: one write after the other until one fails; an empty bank is an error. */
  method CommitUpdateBank(bank: Bank, files: UpdateFiles) returns (rc: int)
    requires bank.Valid() && files !in bank.Repr
    modifies files
    ensures bank.Valid() && bank.Contents == old(bank.Contents)
    ensures bank.Contents == [] ==> rc == INVALID_FILE && files.log == old(files.log)
    ensures bank.Contents != [] ==> (rc, files.log) == Submit(files.outcome, old(files.count), old(files.log), bank.Contents)
  {
    hide Bank.Valid;
    hide Bank.NodeAt;
    ghost var all := bank.Contents;
    var i := bank.First();
    ghost var k := 0;
    assert all[0..] == all;
    rc := INVALID_FILE;
    while true
      invariant bank.Valid() && bank.Contents == all
      invariant 0 <= k <= |all| && i == bank.NodeAt(k)
      invariant rc == if k == 0 then INVALID_FILE else SUCCESS
      invariant k == 0 ==> files.log == old(files.log)
      invariant Submit(files.outcome, old(files.count), old(files.log), all)
             == Submit(files.outcome, files.count, files.log, all[k..])
      decreases |all| - k
    {
      var u, nxt := bank.Visit(i, k);
      if u == null {
        return;
      }
      assert all[k..][0] == u.value && all[k..][1..] == all[k + 1..];
      rc := files.UpdateVar(u.key, u.data[..u.dataSize]);
      if rc != SUCCESS {
        return;
      }
      i := nxt;
      k := k + 1;
    }
  }

  // ---------- the command ----------

  /** With PK present, validation has checked the size of TS. */
  lemma ValidatedTs(m: Platform, bank: seq<Var>)
    requires CurrentsResult(m, bank) == SUCCESS
    ensures TsOk(bank)
  {
    if Find(bank, TS_KEY).Some? {
      ValidCurrent(m, bank, bank[Find(bank, TS_KEY).value]);
      StoredKeys();
    }
  }

  /** After pre-processing TS is there with a time for each variable. */
  lemma PreProcessHasTs(st: State)
    requires TsOk(st.bank)
    ensures HasTs(PreProcess(st).bank)
  {
    var b := PreProcess(st).bank;
    WithAllEffect(st.bank, DEFAULTS);
    DefaultsByKey();
    assert ZERO_TS in DEFAULTS;
    var ts := Find(b, TS_KEY).value;
    assert b[ts] in b;
    if b[ts] in st.bank {
      InBank(st.bank, b[ts]);
    }
  }

  lemma InBank(bank: seq<Var>, v: Var)
    requires v in bank
    ensures Find(bank, v.key).Some?
  {
  }

  /** Banks that pass validation leave pre-processing with a usable TS. */
  lemma ValidBanksHaveTs(m: Platform, updates: seq<Var>, bank: seq<Var>)
    requires BanksResult(m, updates, bank) == SUCCESS && (Find(bank, PK_KEY).None? ==> TsOk(bank))
    ensures TsOk(bank) && HasTs(PreProcess(State(bank, false)).bank)
  {
    if Find(bank, PK_KEY).Some? {
      ValidatedTs(m, bank);
    }
    PreProcessHasTs(State(bank, false));
  }

  /** What the command reports before anything is written. */
  function CommandResult(m: Platform, updates: seq<Var>, bank: seq<Var>): (r: int)
    requires Find(bank, PK_KEY).None? ==> TsOk(bank)
  {
    var rc := BanksResult(m, updates, bank);
    if rc != SUCCESS then rc
    else
      ValidBanksHaveTs(m, updates, bank);
      Process(m, PreProcess(State(bank, false)), updates).0
  }

  /** A queue that passes is not empty. */
  lemma CommandResultCases(m: Platform, updates: seq<Var>, bank: seq<Var>)
    requires Find(bank, PK_KEY).None? ==> TsOk(bank)
    ensures BanksResult(m, updates, bank) != SUCCESS ==> CommandResult(m, updates, bank) == BanksResult(m, updates, bank)
    ensures BanksResult(m, updates, bank) == SUCCESS ==>
              var st := PreProcess(State(bank, false));
              HasTs(st.bank) && CommandResult(m, updates, bank) == Process(m, st, updates).0
    ensures CommandResult(m, updates, bank) == SUCCESS ==> updates != []
  {
    hide UpdatesResult;
    hide CurrentsResult;
    if BanksResult(m, updates, bank) == SUCCESS {
      ValidBanksHaveTs(m, updates, bank);
    }
  }

  /** With PK present and no key twice, every update of the queue is trusted where it stands. */
  ghost predicate QueueIsTrusted(m: Platform, updates: seq<Var>, bank: seq<Var>) {
    UniqueKeys(bank) && Find(bank, PK_KEY).Some? ==>
      var st := PreProcess(State(bank, false));
      HasTs(st.bank) && forall i | 0 <= i < |updates| :: TrustedAt(m, st, updates, i)
  }

  /** The command succeeds only on trusted queues. */
  lemma CommandIsTrusted(m: Platform, updates: seq<Var>, bank: seq<Var>)
    requires (Find(bank, PK_KEY).None? ==> TsOk(bank)) && CommandResult(m, updates, bank) == SUCCESS
    ensures QueueIsTrusted(m, updates, bank)
  {
    var st := PreProcess(State(bank, false));
    CommandResultCases(m, updates, bank);
    hide CommandResult;
    hide BanksResult;
    hide Update.PreProcess;
    hide Fold;
    hide TrustedAt;
    RunIsAtomic(m, st, updates);
    if UniqueKeys(bank) && Find(bank, PK_KEY).Some? {
      forall i | 0 <= i < |updates| ensures TrustedAt(m, st, updates, i) {
        PassedQueueIsTrusted(m, bank, updates, i);
      }
    }
  }

  /** A bank that shares nothing with the engine and the two banks it works on. */
  ghost predicate Apart(copy: Bank, engine: Edk2Compat, variableBank: Bank, updateBank: Bank)
    reads copy, engine, engine.stagingBank, variableBank, updateBank
  {
    && engine !in copy.Repr && copy.Repr !! engine.stagingBank.Repr
    && copy.Repr !! variableBank.Repr && copy.Repr !! updateBank.Repr
  }

  /** Makes the copy of the queue that is written later. */
  method CopyQueue(engine: Edk2Compat, variableBank: Bank, updateBank: Bank) returns (copy: Bank)
    requires engine.Valid() && variableBank.Valid() && updateBank.Valid() && engine.Separate(variableBank, updateBank)
    ensures copy.Valid() && fresh(copy.Repr) && copy.Contents == updateBank.Contents
    ensures Apart(copy, engine, variableBank, updateBank)
  {
    hide Bank.Valid;
    copy := new Bank();
    copy.CopyFrom(updateBank);
    assert copy.Contents == updateBank.Contents;
  }

  /** Pre-processing, beside the queue and its copy. */
  method Prepare(engine: Edk2Compat, variableBank: Bank, updateBank: Bank, ghost copy: Bank)
    requires engine.Valid() && variableBank.Valid() && updateBank.Valid() && engine.Separate(variableBank, updateBank)
    requires copy.Valid() && Apart(copy, engine, variableBank, updateBank)
    modifies engine, variableBank.Repr
    ensures engine.Valid() && variableBank.Valid() && updateBank.Valid() && engine.Separate(variableBank, updateBank)
    ensures copy.Valid() && Apart(copy, engine, variableBank, updateBank) && copy.Contents == old(copy.Contents)
    ensures fresh(variableBank.Repr - old(variableBank.Repr)) && updateBank.Contents == old(updateBank.Contents)
    ensures State(variableBank.Contents, engine.setupMode) == PreProcess(State(old(variableBank.Contents), false))
  {
    hide Bank.Valid;
    hide Update.PreProcess;
    engine.PreProcess(variableBank);
  }

  /** Pre-processing and processing; the copy of the queue stays as it is. */
  method RunEngine(engine: Edk2Compat, variableBank: Bank, updateBank: Bank, ghost copy: Bank) returns (rc: int)
    requires engine.Valid() && variableBank.Valid() && updateBank.Valid() && engine.Separate(variableBank, updateBank)
    requires copy.Valid() && Apart(copy, engine, variableBank, updateBank)
    requires HasTs(PreProcess(State(variableBank.Contents, false)).bank)
    modifies engine, engine.stagingBank.Repr, variableBank.Repr, updateBank.Repr
    ensures variableBank.Valid() && updateBank.Valid() && variableBank.Repr !! updateBank.Repr
    ensures fresh(variableBank.Repr - old(variableBank.Repr)) && updateBank.Repr <= old(updateBank.Repr)
    ensures copy.Valid() && copy.Contents == old(copy.Contents) && copy.Repr == old(copy.Repr)
    ensures rc == Update.Process(engine.m, PreProcess(State(old(variableBank.Contents), false)), old(updateBank.Contents)).0
  {
    hide Bank.Valid;
    hide Update.PreProcess;
    hide Update.Process;
    hide HasTs;
    Prepare(engine, variableBank, updateBank, copy);
    rc := engine.Process(variableBank, updateBank);
  }

  /**
   * `verify`: succeeds exactly when the banks are valid, the engine accepts the whole queue, and, with the write flag,
   * every original update could be written. Nothing is written unless the engine has accepted the queue; what is
   * written is the queue as it was before processing emptied it, in order, up to the first failure. A queue it accepts
   * is trusted, update by update.
   */
  method Verify(engine: Edk2Compat, variableBank: Bank, updateBank: Bank, writeFlag: bool, files: UpdateFiles) returns (rc: int)
    requires engine.Valid() && variableBank.Valid() && updateBank.Valid() && engine.Separate(variableBank, updateBank)
    requires files !in variableBank.Repr && files !in updateBank.Repr && files !in engine.stagingBank.Repr
    requires Find(variableBank.Contents, PK_KEY).None? ==> TsOk(variableBank.Contents)
    modifies engine, engine.stagingBank.Repr, variableBank.Repr, updateBank.Repr, files
    ensures var checked := CommandResult(engine.m, old(updateBank.Contents), old(variableBank.Contents));
            if checked != SUCCESS || !writeFlag then rc == checked && files.log == old(files.log)
            else (rc, files.log) == Submit(files.outcome, old(files.count), old(files.log), old(updateBank.Contents))
    ensures rc == SUCCESS ==> QueueIsTrusted(engine.m, old(updateBank.Contents), old(variableBank.Contents))
    ensures variableBank.Valid() && variableBank.Contents == [] && updateBank.Valid() && updateBank.Contents == []
  {
    hide Bank.Valid;
    hide BanksResult;
    hide CommandResult;
    hide QueueIsTrusted;
    hide Submit;
    hide Update.PreProcess;
    hide Update.Process;
    hide HasTs;
    CommandResultCases(engine.m, updateBank.Contents, variableBank.Contents);
    if CommandResult(engine.m, updateBank.Contents, variableBank.Contents) == SUCCESS {
      CommandIsTrusted(engine.m, updateBank.Contents, variableBank.Contents);
    }
    rc := ValidateBanks(engine.m, updateBank, variableBank);
    if rc == SUCCESS {
      var updateBankCopy := CopyQueue(engine, variableBank, updateBank);
      rc := RunEngine(engine, variableBank, updateBank, updateBankCopy);
      if rc == SUCCESS && writeFlag {
        rc := CommitUpdateBank(updateBankCopy, files);
      }
    }
    variableBank.Clear();
    updateBank.Clear();
  }
}
