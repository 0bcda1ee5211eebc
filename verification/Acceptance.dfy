/** Exactly which updates are accepted, and what an accepted update or queue leaves in the variables. */
module Acceptance {
  import opened Bytes
  import opened Codes
  import opened Keys
  import opened Platform
  import opened Timestamp
  import opened Esl
  import opened Auth
  import opened PreImage
  import opened VerifySignature
  import opened EslListCheck
  import opened Update
  import opened Runs

  // ---------- one update ----------

  /** db and dbx, which KEK may sign as well as PK. */
  predicate IsDatabase(key: bytes) { CStr(key) == DB || CStr(key) == DBX }

  /** The variable holds data and `verify_signature` succeeds on it. */
  predicate Vouches(m: Platform, bank: seq<Var>, u: Var, name: bytes)
    requires Splits(u.data) && Signable(u.key)
  {
    && Held(bank, name) != []
    && VerifyResult(m, Message(u.data), Digest(m, u.key, u.data), Held(bank, name)) == OPAL_SUCCESS
  }

  /** PK, or for db and dbx KEK, vouches; or none of them holds data and the value counts no list. */
  predicate Permitted(m: Platform, bank: seq<Var>, u: Var)
    requires Splits(u.data) && Signable(u.key)
  {
    || Vouches(m, bank, u, PK)
    || (IsDatabase(u.key) && Vouches(m, bank, u, KEK))
    || (CheckResult(m, u.key, NewValue(u.data)) == 0 && Held(bank, PK) == [] && (IsDatabase(u.key) ==> Held(bank, KEK) == []))
  }

  /** What an update must meet: the file splits, the name is known, the time is later, the format is right, and it is permitted. */
  predicate Meets(m: Platform, setup: bool, bank: seq<Var>, store: TsStore, u: Var) {
    && Splits(u.data) && Signable(u.key)
    && LexLess(Fields(Slot(store, SlotOf(u.key).value)), Fields(TimeOf(u.data)))
    && CheckResult(m, u.key, NewValue(u.data)) >= 0
    && (setup || Permitted(m, bank, u))
  }

  lemma NamesTried(key: bytes)
    requires Signable(key)
    ensures Authorities(key) == if IsDatabase(key) then [KEK, PK] else [PK]
  {
  }

  lemma TriedIsPermitted(m: Platform, bank: seq<Var>, u: Var)
    requires Splits(u.data) && Signable(u.key)
    ensures TryAuthorities(m, Message(u.data), Digest(m, u.key, u.data), Authorities(u.key), bank,
                           CheckResult(m, u.key, NewValue(u.data))) == OPAL_SUCCESS
       <==> Permitted(m, bank, u)
  {
    hide CheckResult;
    hide VerifyResult;
    hide Digest;
    hide Message;
    hide NewValue;
    hide Splits;
    hide Held;
    hide TryAuthorities;
    hide Authorities;
    hide IsDatabase;
    NamesTried(u.key);
    var names := Authorities(u.key);
    TryAuthoritiesExact(m, Message(u.data), Digest(m, u.key, u.data), names, bank, CheckResult(m, u.key, NewValue(u.data)));
    assert forall a :: a in names <==> a == PK || (a == KEK && IsDatabase(u.key));
  }

  lemma DecideCases(m: Platform, setup: bool, bank: seq<Var>, store: TsStore, u: Var)
    requires Splits(u.data) && Signable(u.key)
    ensures Decide(m, setup, u, bank, store).Accept?
       <==> && CheckTimestamp(u.key, TimeOf(u.data), store) == OPAL_SUCCESS
            && CheckResult(m, u.key, NewValue(u.data)) >= 0
            && (setup || TryAuthorities(m, Message(u.data), Digest(m, u.key, u.data), Authorities(u.key), bank,
                                        CheckResult(m, u.key, NewValue(u.data))) == OPAL_SUCCESS)
  {
    hide CheckTimestamp;
    hide CheckResult;
    hide TryAuthorities;
    hide Digest;
    hide Authorities;
    hide Signable;
    hide DescriptorSize;
  }

  /** An update is accepted exactly when it meets the conditions, and then with its own value and time. */
  lemma DecideExact(m: Platform, setup: bool, bank: seq<Var>, store: TsStore, u: Var)
    ensures var d := Decide(m, setup, u, bank, store);
            && (d.Accept? <==> Meets(m, setup, bank, store, u))
            && (d.Accept? ==> d.esl == NewValue(u.data) && d.time == TimeOf(u.data))
  {
    hide Decide;
    hide CheckResult;
    hide CheckTimestamp;
    hide TryAuthorities;
    hide Permitted;
    hide LexLess;
    hide Fields;
    hide Digest;
    hide Authorities;
    hide Signable;
    if Splits(u.data) && Signable(u.key) {
      DecideCases(m, setup, bank, store, u);
      TimeDecides(u.key, TimeOf(u.data), store);
      TriedIsPermitted(m, bank, u);
    }
  }

  lemma TimeDecides(key: bytes, t: EfiTime, store: TsStore)
    ensures CheckTimestamp(key, t, store) == OPAL_SUCCESS
       <==> Signable(key) && LexLess(Fields(Slot(store, SlotOf(key).value)), Fields(t))
  {
    if Signable(key) {
      CheckIsLaterThan(key, t, store);
    }
    hide Unpack;
    hide LexLess;
    hide Fields;
  }

  /** One round of the queue succeeds exactly when the update meets the conditions and its variable is there. */
  lemma StepExact(m: Platform, setup: bool, bank: seq<Var>, u: Var)
    requires HasTs(bank)
    ensures Step(m, setup, bank, u).Done? <==> Meets(m, setup, bank, Store(bank), u) && Find(bank, u.key).Some?
  {
    DecideExact(m, setup, bank, Store(bank), u);
    hide Decide;
    hide Meets;
    hide Apply;
  }

  // ---------- the format of what is accepted ----------

  /** A value without a list, or one whose first list is of the right kind and fits the stride (one stride for PK). */
  predicate WellFormed(m: Platform, key: bytes, value: bytes) {
    || |value| < ESL_HEADER
    || (var s, room := Stride(value), |value| - ESL_HEADER;
        && s > 0
        && EslCert(m, value, |value|).Found?
        && Acceptable(m, key, SignatureType(value), EslCert(m, value, |value|).data)
        && PayloadOffset(value) <= ESL_HEADER + room % s
        && (CStr(key) == PK ==> room < s))
  }

  lemma CheckedIsWellFormed(m: Platform, key: bytes, value: bytes)
    ensures CheckResult(m, key, value) >= 0 <==> WellFormed(m, key, value)
  {
    CheckExact(m, key, value);
    hide CheckResult;
    hide EslCert;
    hide Acceptable;
    if |value| >= ESL_HEADER && Stride(value) > 0 {
      NotNegative(|value| - ESL_HEADER, Stride(value));
    }
  }

  lemma NotNegative(a: nat, s: nat)
    requires s > 0
    ensures a / s >= 0
  {
  }

  /** In either mode an accepted value passed the format check; for PK it is one list and fewer than 28 bytes more. */
  lemma AcceptedIsWellFormed(m: Platform, setup: bool, bank: seq<Var>, u: Var)
    requires HasTs(bank) && Step(m, setup, bank, u).Done?
    ensures Splits(u.data) && CheckResult(m, u.key, NewValue(u.data)) >= 0 && WellFormed(m, u.key, NewValue(u.data))
    ensures CStr(u.key) == PK && |NewValue(u.data)| >= ESL_HEADER ==>
              |NewValue(u.data)| < Stride(NewValue(u.data)) + ESL_HEADER
  {
    StepExact(m, setup, bank, u);
    CheckedIsWellFormed(m, u.key, NewValue(u.data));
    hide Step;
    hide CheckResult;
    hide Permitted;
    hide LexLess;
    hide EslCert;
    hide Acceptable;
  }

  /** So is every value of a queue that passes. */
  lemma {:induction false} PassedQueueIsWellFormed(m: Platform, setup: bool, bank: seq<Var>, updates: seq<Var>, u: Var)
    requires HasTs(bank) && Fold(m, setup, bank, updates).Done? && u in updates
    ensures Splits(u.data) && CheckResult(m, u.key, NewValue(u.data)) >= 0 && WellFormed(m, u.key, NewValue(u.data))
    ensures CStr(u.key) == PK && |NewValue(u.data)| >= ESL_HEADER ==>
              |NewValue(u.data)| < Stride(NewValue(u.data)) + ESL_HEADER
    decreases |updates|
  {
    hide Step;
    hide CheckResult;
    hide WellFormed;
    var first := updates[0];
    StepEffect(m, setup, bank, first);
    if u == first {
      AcceptedIsWellFormed(m, setup, bank, u);
    } else {
      assert u in updates[1..];
      PassedQueueIsWellFormed(m, setup, Step(m, setup, bank, first).bank, updates[1..], u);
    }
  }

  /** A PK value of two lists is refused in either mode. */
  lemma TwoPkListsAreRefused(m: Platform, setup: bool, bank: seq<Var>, u: Var, x: Item, y: Item)
    requires HasTs(bank) && CStr(u.key) == PK && Splits(u.data) && NewValue(u.data) == Encode(x) + Encode(y)
    ensures Step(m, setup, bank, u).Halted?
  {
    EncodedHeader(x, Encode(y));
    if Step(m, setup, bank, u).Done? {
      AcceptedIsWellFormed(m, setup, bank, u);
    }
    hide Step;
    hide Encode;
    hide Stride;
    hide CheckResult;
    hide WellFormed;
  }

  // ---------- what is left in the variables ----------

  /** An accepted update leaves its variable volatile exactly when emptied, newly protected only as PK, otherwise flagged as it was. */
  lemma FlagsAfterStep(m: Platform, setup: bool, bank: seq<Var>, u: Var)
    requires HasTs(bank) && Step(m, setup, bank, u).Done?
    ensures Splits(u.data) && Find(bank, u.key).Some?
    ensures var i, next := Find(bank, u.key).value, Step(m, setup, bank, u).bank;
            && |next| == |bank| && next[i].key == bank[i].key && next[i].data == NewValue(u.data)
            && FlagsAfter(bank[i].flags, u.key, NewValue(u.data), next[i].flags)
  {
    StepEffect(m, setup, bank, u);
    hide Step;
    hide Splits;
    hide Signable;
    FlagsAfterReplaced(bank, u, NewValue(u.data), TimeOf(u.data), Step(m, setup, bank, u).bank);
  }

  lemma FlagsAfterReplaced(bank: seq<Var>, u: Var, data: Blob, time: EfiTime, next: seq<Var>)
    requires HasTs(bank) && Replaced(bank, u, data, time, next)
    ensures Find(bank, u.key).Some? && |next| == |bank|
    ensures var i := Find(bank, u.key).value;
            && next[i].key == bank[i].key && next[i].data == data
            && FlagsAfter(bank[i].flags, u.key, data, next[i].flags)
  {
    hide HasTs;
    hide Store;
    hide SetSlot;
    hide SlotOf;
  }

  predicate FlagsAfter(was: Flags, key: bytes, value: bytes, now: Flags) {
    && (now.isVolatile <==> value == [])
    && (now.isProtected <==> was.isProtected || CStr(key) == PK || CStr(key) == HWKH)
    && now.others == was.others
  }

  /** Some update of the queue is for this key. */
  predicate Updates(updates: seq<Var>, key: bytes) { exists u | u in updates :: u.key == key }

  /** The value of the last update of this key, or `held` if there is none. */
  function LastValue(updates: seq<Var>, key: bytes, held: Blob): (r: Blob) {
    if updates == [] then held
    else
      var u := updates[0];
      LastValue(updates[1..], key, if u.key == key && Splits(u.data) then NewValue(u.data) else held)
  }

  /** What a queue makes of one variable: the last value, flagged accordingly, or nothing if no update is for it. */
  predicate LeftBy(updates: seq<Var>, was: Var, now: Var) {
    && now.key == was.key
    && now.data == LastValue(updates, was.key, was.data)
    && if Updates(updates, was.key) then FlagsAfter(was.flags, was.key, now.data, now.flags) else now.flags == was.flags
  }

  /** After a queue that passes every variable but TS holds the value of its last update, and its flags follow. */
  lemma {:induction false} QueueLeaves(m: Platform, setup: bool, bank: seq<Var>, updates: seq<Var>, key: bytes)
    requires HasTs(bank) && Fold(m, setup, bank, updates).Done? && Find(bank, key).Some? && key != TS_KEY
    ensures var i, last := Find(bank, key).value, Fold(m, setup, bank, updates).bank;
            |last| == |bank| && Find(last, key) == Some(i) && LeftBy(updates, bank[i], last[i])
    decreases |updates|
  {
    hide Step;
    hide LeftBy;
    hide Replaced;
    var i := Find(bank, key).value;
    if updates == [] {
      LeftByNone(bank[i]);
    } else {
      var u, next := updates[0], Step(m, setup, bank, updates[0]).bank;
      StepEffect(m, setup, bank, u);
      SameKeysSameFind(bank, next, key);
      StepLeaves(m, setup, bank, u, key);
      QueueLeaves(m, setup, next, updates[1..], key);
      var last := Fold(m, setup, next, updates[1..]).bank;
      LeftByBoth(updates, bank[i], next[i], last[i]);
    }
  }

  lemma LeftByNone(v: Var)
    ensures LeftBy([], v, v)
  {
  }

  lemma StepLeaves(m: Platform, setup: bool, bank: seq<Var>, u: Var, key: bytes)
    requires HasTs(bank) && Step(m, setup, bank, u).Done? && Find(bank, key).Some? && key != TS_KEY
    ensures var i, next := Find(bank, key).value, Step(m, setup, bank, u).bank;
            |next| == |bank| && LeftBy([u], bank[i], next[i])
  {
    hide LeftBy;
    hide Replaced;
    hide Splits;
    hide Step;
    hide SameKeys;
    hide HasTs;
    StepEffect(m, setup, bank, u);
    ReplacedLeaves(bank, u, TimeOf(u.data), Step(m, setup, bank, u).bank, key);
  }

  lemma ReplacedLeaves(bank: seq<Var>, u: Var, time: EfiTime, next: seq<Var>, key: bytes)
    requires HasTs(bank) && Splits(u.data) && Replaced(bank, u, NewValue(u.data), time, next)
    requires Find(bank, key).Some? && key != TS_KEY
    ensures |next| == |bank| && LeftBy([u], bank[Find(bank, key).value], next[Find(bank, key).value])
  {
    var i := Find(bank, key).value;
    FlagsAfterReplaced(bank, u, NewValue(u.data), time, next);
    assert i != TsIndex(bank);
    OneUpdate(u, key, bank[i].data);
    hide FlagsAfter;
    hide Updates;
    hide LastValue;
    hide Installed;
    hide Splits;
    hide HasTs;
    hide SetSlot;
    hide SlotOf;
  }

  lemma OneUpdate(u: Var, key: bytes, held: Blob)
    ensures Updates([u], key) <==> u.key == key
    ensures LastValue([u], key, held) == if u.key == key && Splits(u.data) then NewValue(u.data) else held
  {
    hide Splits;
    hide NewValue;
    UpdatesSplit(u, [], key);
    assert [u] + [] == [u] && [u][1..] == [];
  }

  lemma LeftByBoth(updates: seq<Var>, was: Var, mid: Var, now: Var)
    requires updates != [] && LeftBy([updates[0]], was, mid) && LeftBy(updates[1..], mid, now)
    ensures LeftBy(updates, was, now)
  {
    var u, rest := updates[0], updates[1..];
    assert updates == [u] + rest;
    UpdatesSplit(u, rest, was.key);
    OneUpdate(u, was.key, was.data);
    NotUpdated(rest, was.key, mid.data);
    hide Updates;
    hide Splits;
    hide NewValue;
  }

  lemma UpdatesSplit(u: Var, rest: seq<Var>, key: bytes)
    ensures Updates([u] + rest, key) <==> u.key == key || Updates(rest, key)
  {
    var all := [u] + rest;
    assert u in all;
    forall v | v in rest ensures v in all {
    }
  }

  lemma {:induction false} NotUpdated(updates: seq<Var>, key: bytes, held: Blob)
    ensures !Updates(updates, key) ==> LastValue(updates, key, held) == held
  {
    if updates != [] && !Updates(updates, key) {
      var u, rest := updates[0], updates[1..];
      assert updates == [u] + rest;
      UpdatesSplit(u, rest, key);
      NotUpdated(rest, key, held);
    }
  }

  /** A run that returns 0 leaves every variable but TS as its queue does; any other run, with PK present, leaves it alone. */
  lemma RunLeaves(m: Platform, st: State, updates: seq<Var>, key: bytes)
    requires HasTs(st.bank) && Find(st.bank, PK_KEY).Some? && Find(st.bank, key).Some? && key != TS_KEY
    ensures var (rc, after) := Process(m, st, updates);
            var i := Find(st.bank, key).value;
            |after.bank| == |st.bank| && Find(after.bank, key) == Some(i)
            && if rc == OPAL_SUCCESS then LeftBy(updates, st.bank[i], after.bank[i]) else after.bank[i] == st.bank[i]
  {
    RunIsAtomic(m, st, updates);
    if Fold(m, st.setup, st.bank, updates).Done? {
      QueueLeaves(m, st.setup, st.bank, updates, key);
    }
    hide Fold;
    hide Update.Process;
    hide LeftBy;
    hide Find;
    hide HasTs;
  }

  // ---------- why an update is refused ----------

  /** The code of a refusal by its cause, in the order the causes are looked for. */
  lemma RefusalCodes(m: Platform, setup: bool, bank: seq<Var>, store: TsStore, u: Var)
    ensures var d := Decide(m, setup, u, bank, store);
            && (|u.data| < 40 ==> d == Reject(OPAL_PARAMETER))
            && (Splits(u.data) && !Signable(u.key) ==> d == Reject(OPAL_INTERNAL_ERROR))
            && (Splits(u.data) && Signable(u.key) ==>
                  if !LexLess(Fields(Slot(store, SlotOf(u.key).value)), Fields(TimeOf(u.data)))
                  then d == Reject(OPAL_PERMISSION)
                  else CheckResult(m, u.key, NewValue(u.data)) < 0 ==> d == Reject(CheckResult(m, u.key, NewValue(u.data))))
  {
    hide CheckResult;
    hide TryAuthorities;
    hide LexLess;
    hide Fields;
    hide Digest;
    hide Authorities;
    if Splits(u.data) {
      TimeDecides(u.key, TimeOf(u.data), store);
    }
    hide Unpack;
  }
}
