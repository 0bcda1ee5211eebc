/** The update engine on heap banks, and that it computes exactly the functions of module Update. */
module Engine {
  import opened Bytes
  import opened Codes
  import opened Keys
  import opened Platform
  import opened Timestamp
  import opened Auth
  import opened PreImage
  import opened VerifySignature
  import opened EslListCheck
  import opened IntrusiveList
  import opened Update
  import opened SecvarBank

  /** The loop over the authorities of `process_update`. */
  method TryEachAuthority(m: Platform, message: bytes, digest: bytes, names: seq<bytes>, bank: Bank, count: int) returns (rc: int)
    requires bank.Valid()
    ensures rc == TryAuthorities(m, message, digest, names, bank.Contents, count)
  {
    hide VerifyResult;
    rc := count;
    var i := 0;
    while i < |names|
      invariant 0 <= i <= |names|
      invariant TryAuthorities(m, message, digest, names, bank.Contents, count)
             == TryAuthorities(m, message, digest, names[i..], bank.Contents, rc)
    {
      assert names[i..][1..] == names[i + 1..];
      var avar := bank.FindVar(Terminated(names[i]));
      if avar != null && avar.dataSize != 0 {
        var held := avar.data[..avar.dataSize];
        assert held == Held(bank.Contents, names[i]) by { bank.ValueAt(avar, Find(bank.Contents, Terminated(names[i])).value); }
        rc := Verify(m, message, digest, held);
        if rc == OPAL_SUCCESS {
          return;
        }
      } else {
        assert Held(bank.Contents, names[i]) == [] by {
          if avar != null { bank.ValueAt(avar, Find(bank.Contents, Terminated(names[i])).value); }
        }
      }
      i := i + 1;
    }
  }

  /** `process_update`: on success the new value and its time. */
  method ProcessUpdate(m: Platform, setup: bool, u: Secvar, bank: Bank, lastTimestamp: array<byte>)
    returns (rc: int, newEsl: Blob, timestamp: EfiTime)
    requires u.Valid() && bank.Valid() && lastTimestamp.Length >= TS_SIZE
    ensures match Decide(m, setup, u.value, bank.Contents, lastTimestamp[..TS_SIZE])
            case Reject(e) => rc == e
            case Accept(esl, time) => rc == OPAL_SUCCESS && newEsl == esl && timestamp == time
  {
    hide CheckTimestamp;
    hide CheckResult;
    hide TryAuthorities;
    hide SignedBytes;
    hide DescriptorSize;
    hide SlotOf;
    newEsl, timestamp := [], Zeros(TIME_SIZE);
    var data: Blob := u.data[..u.dataSize];
    var size, auth := GetAuthDescriptor2(m, data);
    if size < 0 || |data| < size {
      return size, newEsl, timestamp;
    }
    timestamp := auth[..TIME_SIZE];
    assert timestamp == TimeOf(data) && u.value == Var(u.key, data, u.flags);
    rc := CheckTimestamp(u.key, timestamp, lastTimestamp[..TS_SIZE]);
    if rc != OPAL_SUCCESS {
      return;
    }
    newEsl := data[size..];
    rc := ValidateEslList(m, u.key, newEsl);
    if rc < 0 {
      return;
    }
    if setup {
      return OPAL_SUCCESS, newEsl, timestamp;
    }
    var digest := GetHashToVerify(m, u.key, newEsl, timestamp);
    if digest.None? {
      return OPAL_INTERNAL_ERROR, newEsl, timestamp;
    }
    rc := TryEachAuthority(m, auth[AUTH_HEADER..], digest.value, Authorities(u.key), bank, rc);
  }

  /** One round of the queue loop on the staging bank; `ts` is its TS variable, found before the loop, and keeps its buffer. */
  method ApplyOne(m: Platform, setup: bool, u: Secvar, staging: Bank, ts: Secvar) returns (rc: int)
    requires staging.Valid() && u.Valid() && u !in staging.Repr && u.data !in staging.Repr
    requires HasTs(staging.Contents) && staging.vars[TsIndex(staging.Contents)] == ts
    modifies staging.Repr
    ensures staging.Valid() && fresh(staging.Repr - old(staging.Repr))
    ensures match Step(m, setup, old(staging.Contents), old(u.value))
            case Halted(e) => rc == e
            case Done(next) => rc == OPAL_SUCCESS && staging.Contents == next && staging.vars == old(staging.vars)
    ensures rc == OPAL_SUCCESS ==> ts.data == old(ts.data)
  {
    hide Decide;
    hide SlotOf;
    ghost var bank, uv := staging.Contents, u.value;
    ghost var t := TsIndex(bank);
    staging.BufferAt(ts, t);
    var newEsl, timestamp;
    rc, newEsl, timestamp := ProcessUpdate(m, setup, u, staging, ts.data);
    if rc != OPAL_SUCCESS {
      return;
    }
    rc := staging.UpdateVariable(u.key, newEsl);
    if rc != OPAL_SUCCESS {
      return;
    }
    ghost var i := Find(bank, uv.key).value;
    UpdatedIsNotTs(bank, i, uv.key);
    rc := staging.StoreTime(ts, t, u.key, timestamp);
    assert staging.Contents == Apply(bank, i, uv, newEsl, timestamp);
    staging.BufferAt(ts, t);
  }

  /** Finds a variable, or adds it empty with the given flags. */
  method FindOrAdd(bank: Bank, key: bytes, flags: Flags) returns (v: Secvar)
    requires bank.Valid() && 0 < |key| <= MAX_KEY_LEN
    modifies bank.Repr
    ensures bank.Valid() && fresh(bank.Repr - old(bank.Repr))
    ensures bank.Contents == WithVar(old(bank.Contents), Var(key, [], flags))
    ensures Find(bank.Contents, key).Some? && v == bank.vars[Find(bank.Contents, key).value]
  {
    var found := bank.FindVar(key);
    if found != null {
      return found;
    }
    var link := NewSecvar(key, [], flags);
    v := link.owner;
    ghost var was := bank.Contents;
    bank.AddTail(link);
    FindAppended(was, Var(key, [], flags));
  }

  lemma FindAppended(bank: seq<Var>, v: Var)
    requires Find(bank, v.key).None?
    ensures Find(bank + [v], v.key) == Some(|bank|)
  {
    assert (bank + [v])[|bank|] == v;
    assert forall j | 0 <= j < |bank| :: (bank + [v])[j] == bank[j];
    FindIs(bank + [v], v.key, |bank|);
  }

  /** The TS variable as it is on first boot: allocated with a zeroed buffer. */
  method NewTs() returns (link: ListNode<Secvar?>)
    ensures fresh(link) && link.owner != null && fresh(link.owner) && fresh(link.owner.data)
    ensures link.owner.Valid() && link.owner.value == ZERO_TS
  {
    var v := new Secvar(|TS_KEY|, TS_SIZE);
    v.key := TS_KEY;
    v.value := ZERO_TS;
    link := new ListNode<Secvar?>(v);
  }

  /** Adds the TS variable if it is missing. */
  method FindOrAddTs(bank: Bank)
    requires bank.Valid()
    modifies bank.Repr
    ensures bank.Valid() && fresh(bank.Repr - old(bank.Repr))
    ensures bank.Contents == WithVar(old(bank.Contents), ZERO_TS)
  {
    var tsvar := bank.FindVar(TS_KEY);
    if tsvar == null {
      var link := NewTs();
      bank.AddTail(link);
    }
  }

  /** The engine's global state: the mode and the staging bank. */
  class Edk2Compat {
    const m: Platform
    var setupMode: bool
    const stagingBank: Bank

    ghost predicate Valid()
      reads this, stagingBank, stagingBank.Repr
    {
      stagingBank.Valid() && this !in stagingBank.Repr
    }

    constructor (m: Platform)
      ensures Valid() && this.m == m && fresh(stagingBank.Repr)
    {
      this.m := m;
      setupMode := true;
      stagingBank := new Bank();
    }

    /** `edk2_compat_pre_process` */
    method PreProcess(variableBank: Bank)
      requires variableBank.Valid() && this !in variableBank.Repr
      modifies this, variableBank.Repr
      ensures variableBank.Valid() && fresh(variableBank.Repr - old(variableBank.Repr))
      ensures State(variableBank.Contents, setupMode) == Update.PreProcess(State(old(variableBank.Contents), false))
    {
      hide Bank.Valid;
      hide WithVar;
      hide WithAll;
      ghost var was := variableBank.Contents;
      var pkvar := FindOrAdd(variableBank, PK_KEY, VOLATILE_PROTECTED);
      variableBank.HeldAt(pkvar, PK);
      setupMode := pkvar.dataSize == 0;
      var kekvar := FindOrAdd(variableBank, KEK_KEY, VOLATILE);
      var dbvar := FindOrAdd(variableBank, DB_KEY, VOLATILE);
      var dbxvar := FindOrAdd(variableBank, DBX_KEY, VOLATILE);
      FindOrAddTs(variableBank);
      AllDefaults(was);
    }

    /**
     * The queue loop: applies the updates to the staging bank until one fails. Neither the variables nor the updates
     * change, and the buffer of the TS variable is the one it had before the loop.
     */
    method RunQueue(updateBank: Bank, tsvar: Secvar, ghost variableBank: Bank) returns (rc: int)
      requires Valid() && updateBank.Valid() && variableBank.Valid()
      requires updateBank.Repr !! stagingBank.Repr && variableBank.Repr !! stagingBank.Repr
      requires HasTs(stagingBank.Contents) && stagingBank.vars[TsIndex(stagingBank.Contents)] == tsvar
      modifies stagingBank.Repr
      ensures Valid() && fresh(stagingBank.Repr - old(stagingBank.Repr))
      ensures updateBank.Valid() && variableBank.Valid()
      ensures match Fold(m, setupMode, old(stagingBank.Contents), updateBank.Contents)
              case Halted(e) => rc == e
              case Done(last) => rc == OPAL_SUCCESS && stagingBank.Contents == last
      ensures updateBank.Contents == old(updateBank.Contents) && variableBank.Contents == old(variableBank.Contents)
      ensures rc == OPAL_SUCCESS ==> tsvar.data == old(tsvar.data)
    {
      hide Bank.Valid;
      hide Bank.NodeAt;
      hide Step;
      ghost var start, all := stagingBank.Contents, updateBank.Contents;
      rc := 0;
      var i := updateBank.First();
      ghost var k := 0;
      assert all[0..] == all;
      while true
        invariant Valid() && fresh(stagingBank.Repr - old(stagingBank.Repr))
        invariant updateBank.Valid() && updateBank.Repr !! stagingBank.Repr && updateBank.Contents == all
        invariant variableBank.Valid() && tsvar.data == old(tsvar.data)
        invariant 0 <= k <= |all| && i == updateBank.NodeAt(k) && rc == OPAL_SUCCESS
        invariant HasTs(stagingBank.Contents) && stagingBank.vars[TsIndex(stagingBank.Contents)] == tsvar
        invariant Fold(m, setupMode, start, all) == Fold(m, setupMode, stagingBank.Contents, all[k..])
        decreases |all| - k
      {
        var u, nxt := updateBank.Visit(i, k);
        if u == null {
          assert all[k..] == [];
          return;
        }
        ghost var bank := stagingBank.Contents;
        assert all[k..][0] == u.value && all[k..][1..] == all[k + 1..];
        rc := ApplyOne(m, setupMode, u, stagingBank, tsvar);
        if rc != OPAL_SUCCESS {
          return;
        }
        StepEffect(m, setupMode, bank, all[k]);
        i := nxt;
        k := k + 1;
      }
    }

    /** The three banks and the engine itself have no object in common. */
    ghost predicate Separate(variableBank: Bank, updateBank: Bank)
      reads this, variableBank, updateBank, stagingBank
    {
      && this !in variableBank.Repr && this !in updateBank.Repr
      && variableBank.Repr !! updateBank.Repr
      && variableBank.Repr !! stagingBank.Repr && updateBank.Repr !! stagingBank.Repr
    }

    /** Makes the working copy and finds its TS variable. */
    method Stage(variableBank: Bank, ghost updateBank: Bank) returns (tsvar: Secvar?)
      requires Valid() && updateBank.Valid() && variableBank.Valid()
      requires Separate(variableBank, updateBank)
      modifies stagingBank.Repr
      ensures Valid() && updateBank.Valid() && variableBank.Valid()
      ensures Separate(variableBank, updateBank)
      ensures variableBank.Contents == stagingBank.Contents == old(variableBank.Contents)
      ensures updateBank.Contents == old(updateBank.Contents)
      ensures fresh(stagingBank.Repr - old(stagingBank.Repr))
      ensures tsvar == null <==> Find(variableBank.Contents, TS_KEY).None?
      ensures tsvar != null ==> tsvar == stagingBank.vars[Find(variableBank.Contents, TS_KEY).value]
    {
      hide Bank.Valid;
      stagingBank.Init();
      stagingBank.CopyFrom(variableBank);
      assert stagingBank.Contents == variableBank.Contents;
      tsvar := stagingBank.FindVar(TS_KEY);
    }

    /** Replaces the variables by the staging copy. */
    method Commit(variableBank: Bank, ghost updateBank: Bank)
      requires Valid() && updateBank.Valid() && variableBank.Valid()
      requires Separate(variableBank, updateBank)
      modifies variableBank.Repr
      ensures Valid() && updateBank.Valid() && variableBank.Valid()
      ensures Separate(variableBank, updateBank)
      ensures variableBank.Contents == stagingBank.Contents == old(stagingBank.Contents)
      ensures updateBank.Contents == old(updateBank.Contents)
      ensures fresh(variableBank.Repr - old(variableBank.Repr))
    {
      hide Bank.Valid;
      variableBank.Clear();
      variableBank.CopyFrom(stagingBank);
    }

    /** The queue on the staged copy, which replaces the variables only if all of it passed, and is dropped. */
    method RunAndCommit(variableBank: Bank, updateBank: Bank, tsvar: Secvar) returns (rc: int)
      requires Valid() && updateBank.Valid() && variableBank.Valid() && Separate(variableBank, updateBank)
      requires HasTs(stagingBank.Contents) && stagingBank.vars[TsIndex(stagingBank.Contents)] == tsvar
      modifies stagingBank.Repr, variableBank.Repr
      ensures Valid() && updateBank.Valid() && variableBank.Valid() && Separate(variableBank, updateBank)
      ensures fresh(variableBank.Repr - old(variableBank.Repr)) && updateBank.Contents == old(updateBank.Contents)
      ensures stagingBank.Contents == []
      ensures match Fold(m, setupMode, old(stagingBank.Contents), updateBank.Contents)
              case Halted(e) => rc == e && variableBank.Contents == old(variableBank.Contents)
              case Done(last) => rc == OPAL_SUCCESS && variableBank.Contents == last
    {
      hide Bank.Valid;
      hide Fold;
      rc := RunQueue(updateBank, tsvar, variableBank);
      if rc == 0 {
        Commit(variableBank, updateBank);
      }
      stagingBank.Clear();
    }

    /**
     * `edk2_compat_process`: with the TS variable in place, the return code, the variables and the mode are those of
     * the function `Process`, and the queue and the staging bank end empty. The two early returns touch nothing.
     */
    method Process(variableBank: Bank, updateBank: Bank) returns (rc: int)
      requires Valid() && variableBank.Valid() && updateBank.Valid() && Separate(variableBank, updateBank)
      requires Find(variableBank.Contents, TS_KEY).Some? ==> HasTs(variableBank.Contents)
      modifies this, stagingBank.Repr, variableBank.Repr, updateBank.Repr
      ensures Valid() && variableBank.Valid() && updateBank.Valid() && Separate(variableBank, updateBank)
      ensures fresh(variableBank.Repr - old(variableBank.Repr)) && updateBank.Repr <= old(updateBank.Repr)
      ensures old(updateBank.Contents) == [] ==>
                && rc == OPAL_EMPTY && setupMode == old(setupMode) && updateBank.Contents == []
                && variableBank.Contents == old(variableBank.Contents) && stagingBank.Contents == old(stagingBank.Contents)
      ensures old(updateBank.Contents) != [] && old(Find(variableBank.Contents, TS_KEY)).None? ==>
                && rc == OPAL_PERMISSION && setupMode == old(setupMode)
                && variableBank.Contents == old(variableBank.Contents) == stagingBank.Contents
                && updateBank.Contents == old(updateBank.Contents)
      ensures old(HasTs(variableBank.Contents)) ==>
                (rc, State(variableBank.Contents, setupMode))
                == Update.Process(m, State(old(variableBank.Contents), old(setupMode)), old(updateBank.Contents))
      ensures old(HasTs(variableBank.Contents)) ==> updateBank.Contents == []
      ensures old(updateBank.Contents) != [] && old(HasTs(variableBank.Contents)) ==> stagingBank.Contents == []
    {
      hide Bank.Valid;
      hide Fold;
      var empty := updateBank.IsEmpty();
      if empty {
        return OPAL_EMPTY;
      }
      var tsvar := Stage(variableBank, updateBank);
      if tsvar == null {
        return OPAL_PERMISSION;
      }
      rc := RunAndCommit(variableBank, updateBank, tsvar);
      rc := SetMode(variableBank, rc);
      updateBank.Clear();
    }

    /** The mode as per the final variables; PK missing is an error of its own. */
    method SetMode(variableBank: Bank, rc0: int) returns (rc: int)
      requires variableBank.Valid() && this !in variableBank.Repr
      modifies this
      ensures variableBank.Valid()
      ensures Find(variableBank.Contents, PK_KEY).None? ==> rc == OPAL_INTERNAL_ERROR && setupMode == old(setupMode)
      ensures Find(variableBank.Contents, PK_KEY).Some? ==> rc == rc0 && (setupMode <==> Held(variableBank.Contents, PK) == [])
    {
      rc := rc0;
      var pk := variableBank.FindVar(PK_KEY);
      if pk == null {
        rc := OPAL_INTERNAL_ERROR;
      } else {
        variableBank.HeldAt(pk, PK);
        setupMode := pk.dataSize == 0;
      }
    }
  }

  lemma AllDefaults(bank: seq<Var>)
    ensures WithAll(bank, DEFAULTS)
         == WithVar(WithVar(WithVar(WithVar(WithVar(bank, EMPTY_PK), EMPTY_KEK), EMPTY_DB), EMPTY_DBX), ZERO_TS)
  {
    var d := DEFAULTS;
    assert d[1..][1..] == d[2..] && d[2..][1..] == d[3..] && d[3..][1..] == d[4..] && d[4..][1..] == [];
    var b1 := WithVar(bank, d[0]);
    var b2 := WithVar(b1, d[1]);
    var b3 := WithVar(b2, d[2]);
    var b4 := WithVar(b3, d[3]);
    assert WithAll(bank, d) == WithAll(b1, d[1..]) == WithAll(b2, d[2..]);
    assert WithAll(b2, d[2..]) == WithAll(b3, d[3..]) == WithAll(b4, d[4..]);
    assert WithAll(b4, d[4..]) == WithVar(b4, d[4]);
  }
}
