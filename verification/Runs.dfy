/** Safety of the update engine over queues, runs and whole histories of runs. */
module Runs {
  import opened Bytes
  import opened Codes
  import opened Keys
  import opened Platform
  import opened Timestamp
  import opened Auth
  import opened PreImage
  import opened EslListCheck
  import opened Update

  // ---------- all or nothing ----------

  /** The bank an update at `i` of the queue meets, when its predecessors were all accepted. */
  predicate AcceptedAt(m: Platform, setup: bool, bank: seq<Var>, updates: seq<Var>, i: nat)
    requires HasTs(bank) && i < |updates|
  {
    match Fold(m, setup, bank, updates[..i])
    case Halted(_) => false
    case Done(mid) =>
      FoldKeepsShape(m, setup, bank, updates[..i]);
      Step(m, setup, mid, updates[i]).Done?
  }

  /** A queue passes exactly when each of its updates is accepted against the state its predecessors left. */
  lemma {:induction false} QueuePassesExactly(m: Platform, setup: bool, bank: seq<Var>, updates: seq<Var>)
    requires HasTs(bank)
    ensures Fold(m, setup, bank, updates).Done? <==> forall i | 0 <= i < |updates| :: AcceptedAt(m, setup, bank, updates, i)
    decreases |updates|
  {
    hide Step;
    if updates != [] {
      var n := |updates| - 1;
      var first := updates[..n];
      assert updates == first + [updates[n]];
      QueuePassesExactly(m, setup, bank, first);
      LastDecides(m, setup, bank, first, updates[n]);
      forall i | 0 <= i < n ensures AcceptedAt(m, setup, bank, updates, i) <==> AcceptedAt(m, setup, bank, first, i) {
        assert updates[..i] == first[..i] && updates[i] == first[i];
      }
      if forall i | 0 <= i < |updates| :: AcceptedAt(m, setup, bank, updates, i) {
        assert AcceptedAt(m, setup, bank, updates, n);
      }
    }
  }

  lemma LastDecides(m: Platform, setup: bool, bank: seq<Var>, first: seq<Var>, u: Var)
    requires HasTs(bank)
    ensures Fold(m, setup, bank, first).Done? ==> HasTs(Fold(m, setup, bank, first).bank)
    ensures Fold(m, setup, bank, first + [u]).Done?
       <==> Fold(m, setup, bank, first).Done? && Step(m, setup, Fold(m, setup, bank, first).bank, u).Done?
  {
    FoldAppend(m, setup, bank, first, [u]);
    var r := Fold(m, setup, bank, first);
    if r.Done? {
      FoldKeepsShape(m, setup, bank, first);
      SingleFold(m, setup, r.bank, u);
    }
  }

  lemma SingleFold(m: Platform, setup: bool, bank: seq<Var>, u: Var)
    requires HasTs(bank)
    ensures Fold(m, setup, bank, [u]) == Step(m, setup, bank, u)
  {
    hide Step;
    if Step(m, setup, bank, u).Done? {
      StepEffect(m, setup, bank, u);
      var next := Step(m, setup, bank, u).bank;
      assert [u][1..] == [];
      assert Fold(m, setup, next, []) == Done(next);
    }
  }

  /**
   * A run returns 0 exactly when there are updates, all are accepted, and PK is present; any other code leaves the
   * bank as it was unless PK is missing, the one case in which a failing run has changed it.
   */
  lemma RunIsAtomic(m: Platform, st: State, updates: seq<Var>)
    requires HasTs(st.bank)
    ensures var (rc, after) := Process(m, st, updates);
            var passed := updates != [] && Fold(m, st.setup, st.bank, updates).Done?;
            && (rc == OPAL_SUCCESS <==> passed && Find(st.bank, PK_KEY).Some?)
            && (after.bank == if passed then Fold(m, st.setup, st.bank, updates).bank else st.bank)
            && (rc != OPAL_SUCCESS && Find(st.bank, PK_KEY).Some? ==> after.bank == st.bank)
            && (updates == [] ==> rc == OPAL_EMPTY && after == st)
            && (updates != [] && Find(st.bank, PK_KEY).None? ==> rc == OPAL_INTERNAL_ERROR && after.setup == st.setup)
            && (updates != [] && !passed && Find(st.bank, PK_KEY).Some? ==> rc == Fold(m, st.setup, st.bank, updates).rc)
  {
    if Fold(m, st.setup, st.bank, updates).Done? {
      FoldKeepsShape(m, st.setup, st.bank, updates);
      SameKeysSameFind(st.bank, Fold(m, st.setup, st.bank, updates).bank, PK_KEY);
    }
  }

  /**
   * Of the queues that pass, "a failing run leaves the variables as they were" holds exactly when PK is present: without
   * it the result is stored although the run fails. Pre-processing always adds PK, so it excludes the failing case
   * (`PreProcessEstablishes`); `EndToEnd.MissingPkIsStored` is an input without it.
   */
  lemma FailingRunKeepsBankExactly(m: Platform, st: State, updates: seq<Var>)
    requires HasTs(st.bank) && updates != [] && Fold(m, st.setup, st.bank, updates).Done?
    ensures var (rc, after) := Process(m, st, updates);
            (rc != OPAL_SUCCESS ==> after.bank == st.bank) <==> Find(st.bank, PK_KEY).Some?
  {
    RunIsAtomic(m, st, updates);
    AcceptedQueueChangesBank(m, st.setup, st.bank, updates);
  }

  /** An accepted queue is never without effect: the time of its first update was stored, and it was later. */
  lemma AcceptedQueueChangesBank(m: Platform, setup: bool, bank: seq<Var>, updates: seq<Var>)
    requires HasTs(bank) && updates != [] && Fold(m, setup, bank, updates).Done?
    ensures Fold(m, setup, bank, updates).bank != bank
  {
    hide Step;
    hide Unpack;
    QueueMembersAreSignable(m, setup, bank, updates, updates[0]);
    QueueStamps(m, setup, bank, updates, SlotOf(updates[0].key).value);
    assert updates[0] in updates;
  }

  // ---------- the invariant of a bank between runs ----------

  predicate UniqueKeys(bank: seq<Var>) {
    forall i, j | 0 <= i < j < |bank| :: bank[i].key != bank[j].key
  }

  /** If TS is there at all, it has a time for each variable. */
  predicate TsOk(bank: seq<Var>) { Find(bank, TS_KEY).Some? ==> HasTs(bank) }

  /** PK, KEK, db, dbx and TS are there, each key once, and the mode follows PK. */
  predicate Invariant(st: State) {
    && UniqueKeys(st.bank) && HasTs(st.bank)
    && Find(st.bank, PK_KEY).Some? && Find(st.bank, KEK_KEY).Some?
    && Find(st.bank, DB_KEY).Some? && Find(st.bank, DBX_KEY).Some?
    && (st.setup <==> Held(st.bank, PK) == [])
  }

  lemma {:induction false} FindAppend(bank: seq<Var>, v: Var, key: bytes)
    ensures Find(bank + [v], key)
         == if Find(bank, key).Some? then Find(bank, key) else if v.key == key then Some(|bank|) else None
  {
    if bank == [] {
      assert bank + [v] == [v];
      assert Find([v][1..], key) == None;
    } else {
      assert (bank + [v])[1..] == bank[1..] + [v];
      FindAppend(bank[1..], v, key);
    }
  }

  /** `b` extends `bank` by variables of `vs` that were missing. */
  predicate Extends(bank: seq<Var>, vs: seq<Var>, b: seq<Var>) {
    && bank <= b
    && (forall v | v in b :: v in bank || v in vs)
    && (UniqueKeys(bank) ==> UniqueKeys(b))
  }

  lemma WithVarEffect(bank: seq<Var>, v: Var)
    ensures Extends(bank, [v], WithVar(bank, v)) && Find(WithVar(bank, v), v.key).Some?
    ensures forall key :: Find(bank, key).Some? ==> Find(WithVar(bank, v), key) == Find(bank, key)
  {
    forall key ensures Find(bank, key).Some? ==> Find(WithVar(bank, v), key) == Find(bank, key) {
      FindAppend(bank, v, key);
    }
    FindAppend(bank, v, v.key);
  }

  lemma {:induction false} WithAllEffect(bank: seq<Var>, vs: seq<Var>)
    ensures Extends(bank, vs, WithAll(bank, vs))
    ensures forall v | v in vs :: Find(WithAll(bank, vs), v.key).Some?
    ensures forall key :: Find(bank, key).Some? ==> Find(WithAll(bank, vs), key) == Find(bank, key)
    decreases |vs|
  {
    if vs != [] {
      WithVarEffect(bank, vs[0]);
      WithAllEffect(WithVar(bank, vs[0]), vs[1..]);
      assert vs == [vs[0]] + vs[1..];
    }
  }

  lemma {:induction false} AllPresent(bank: seq<Var>, vs: seq<Var>)
    requires forall v | v in vs :: Find(bank, v.key).Some?
    ensures WithAll(bank, vs) == bank
  {
    if vs != [] {
      assert vs[0] in vs;
      AllPresent(bank, vs[1..]);
    }
  }

  lemma DefaultsByKey()
    ensures forall v | v in DEFAULTS :: v.data == [] || v == ZERO_TS
    ensures forall v | v in DEFAULTS && v.key == TS_KEY :: v == ZERO_TS
  {
    StoredKeys();
  }

  /** Pre-processing establishes the invariant and keeps what was there. */
  lemma PreProcessEstablishes(st: State)
    requires UniqueKeys(st.bank) && TsOk(st.bank)
    ensures Invariant(PreProcess(st)) && Extends(st.bank, DEFAULTS, PreProcess(st).bank)
    ensures forall key :: Find(st.bank, key).Some? ==> Find(PreProcess(st).bank, key) == Find(st.bank, key)
    ensures Find(st.bank, TS_KEY).None? ==> Store(PreProcess(st).bank) == Zeros(TS_SIZE)
  {
    var b := PreProcess(st).bank;
    WithAllEffect(st.bank, DEFAULTS);
    DefaultsByKey();
    assert EMPTY_PK in DEFAULTS && EMPTY_KEK in DEFAULTS && EMPTY_DB in DEFAULTS && EMPTY_DBX in DEFAULTS;
    assert ZERO_TS in DEFAULTS;
    assert b[Find(b, TS_KEY).value] in b;
    assert HasTs(b);
    ModeFollowsPk(st.bank);
  }

  /** A missing variable is added empty and volatile, PK also protected; TS is added as 64 zero bytes without flags. */
  lemma MissingAreAdded(st: State, key: bytes)
    requires key in {PK_KEY, KEK_KEY, DB_KEY, DBX_KEY, TS_KEY} && Find(st.bank, key).None?
    ensures var b := PreProcess(st).bank;
            && Find(b, key).Some?
            && b[Find(b, key).value] ==
                 if key == TS_KEY then Var(key, Zeros(64), Flags(false, false, 0))
                 else Var(key, [], Flags(true, key == PK_KEY, 0))
  {
    var b := PreProcess(st).bank;
    WithAllEffect(st.bank, DEFAULTS);
    hide WithAll;
    DefaultOf(key);
    var v := b[Find(b, key).value];
    assert v in b && v !in st.bank;
    hide Find;
    OnlyDefault(v);
  }

  /** Each of the five has a default. */
  lemma DefaultOf(key: bytes)
    requires key in {PK_KEY, KEK_KEY, DB_KEY, DBX_KEY, TS_KEY}
    ensures exists v | v in DEFAULTS :: v.key == key
  {
    assert EMPTY_PK in DEFAULTS && EMPTY_KEK in DEFAULTS && EMPTY_DB in DEFAULTS && EMPTY_DBX in DEFAULTS && ZERO_TS in DEFAULTS;
  }

  lemma OnlyDefault(v: Var)
    requires v in DEFAULTS
    ensures v == if v.key == TS_KEY then Var(v.key, Zeros(64), Flags(false, false, 0))
                 else Var(v.key, [], Flags(true, v.key == PK_KEY, 0))
  {
    StoredKeys();
  }

  /** Adding the variables after PK does not change what PK holds. */
  lemma ModeFollowsPk(bank: seq<Var>)
    ensures Held(WithAll(bank, DEFAULTS), PK) == Held(WithVar(bank, EMPTY_PK), PK)
  {
    var b1 := WithVar(bank, EMPTY_PK);
    WithVarEffect(bank, EMPTY_PK);
    WithAllEffect(b1, DEFAULTS[1..]);
  }

  lemma InvariantIsFixed(st: State)
    requires Invariant(st)
    ensures PreProcess(st) == st
  {
    assert EMPTY_PK.key == PK_KEY && EMPTY_KEK.key == KEK_KEY && EMPTY_DB.key == DB_KEY;
    assert EMPTY_DBX.key == DBX_KEY && ZERO_TS.key == TS_KEY;
    AllPresent(st.bank, DEFAULTS);
  }

  /** Doing it again changes nothing. */
  lemma PreProcessIsIdempotent(st: State)
    requires UniqueKeys(st.bank) && TsOk(st.bank)
    ensures PreProcess(PreProcess(st)) == PreProcess(st)
  {
    PreProcessEstablishes(st);
    InvariantIsFixed(PreProcess(st));
  }

  /** A run keeps the invariant and the variables. */
  lemma RunKeepsInvariant(m: Platform, st: State, updates: seq<Var>)
    requires Invariant(st)
    ensures Invariant(Process(m, st, updates).1) && SameKeys(st.bank, Process(m, st, updates).1.bank)
  {
    hide Step;
    var after := Process(m, st, updates).1;
    if Fold(m, st.setup, st.bank, updates).Done? {
      FoldKeepsShape(m, st.setup, st.bank, updates);
    }
    assert SameKeys(st.bank, after.bank);
    forall key ensures Find(st.bank, key) == Find(after.bank, key) {
      SameKeysSameFind(st.bank, after.bank, key);
    }
  }

  // ---------- times over a queue ----------

  /** The stored time of one variable as the number that is compared. */
  function Stamp(bank: seq<Var>, k: nat): (r: nat)
    requires HasTs(bank) && k < 4
  {
    Unpack(Slot(Store(bank), k))
  }

  /** What an update would store for slot `k`, given what is stored. */
  function StampAfter(u: Var, k: nat, stamp: nat): (r: nat) {
    if SlotOf(u.key) == Some(k) && |u.data| >= TIME_SIZE then Unpack(TimeOf(u.data)) else stamp
  }

  /** The time of the last update of slot `k` in the queue, or `stamp` if there is none. */
  function LastStamp(updates: seq<Var>, k: nat, stamp: nat): (r: nat) {
    if updates == [] then stamp else LastStamp(updates[1..], k, StampAfter(updates[0], k, stamp))
  }

  lemma StepStamp(m: Platform, setup: bool, bank: seq<Var>, u: Var, k: nat)
    requires HasTs(bank) && k < 4 && Step(m, setup, bank, u).Done?
    ensures var next := Step(m, setup, bank, u).bank;
            && HasTs(next) && |u.data| >= TIME_SIZE && Signable(u.key)
            && Stamp(next, k) == StampAfter(u, k, Stamp(bank, k))
            && (SlotOf(u.key) == Some(k) ==> Stamp(bank, k) < Unpack(TimeOf(u.data)))
  {
    StepEffect(m, setup, bank, u);
    StepIsLater(m, setup, bank, u);
    SetSlotReads(Store(bank), SlotOf(u.key).value, TimeOf(u.data), k);
    hide Unpack;
    hide Step;
    hide SlotOf;
    hide SetSlot;
  }

  lemma StepIsLater(m: Platform, setup: bool, bank: seq<Var>, u: Var)
    requires HasTs(bank) && Step(m, setup, bank, u).Done?
    ensures Signable(u.key) && Splits(u.data)
    ensures Stamp(bank, SlotOf(u.key).value) < Unpack(TimeOf(u.data))
  {
    hide Unpack;
    hide CheckResult;
    hide TryAuthorities;
  }

  /**
   * Over an accepted queue each time never decreases and ends as that of the last update of its variable; every
   * update is later than what was stored before the queue.
   */
  lemma {:induction false} QueueStamps(m: Platform, setup: bool, bank: seq<Var>, updates: seq<Var>, k: nat)
    requires HasTs(bank) && k < 4 && Fold(m, setup, bank, updates).Done?
    ensures var last := Fold(m, setup, bank, updates).bank;
            HasTs(last) && Stamp(last, k) == LastStamp(updates, k, Stamp(bank, k)) >= Stamp(bank, k)
    ensures forall u | u in updates && SlotOf(u.key) == Some(k) ::
              |u.data| >= TIME_SIZE
              && Stamp(bank, k) < Unpack(TimeOf(u.data)) <= LastStamp(updates, k, Stamp(bank, k))
    decreases |updates|
  {
    hide Unpack;
    hide Step;
    if updates != [] {
      var u, next := updates[0], Step(m, setup, bank, updates[0]).bank;
      assert updates == [u] + updates[1..];
      StepStamp(m, setup, bank, u, k);
      QueueStamps(m, setup, next, updates[1..], k);
    }
  }

  /** Two accepted updates of one variable have increasing times in queue order. */
  lemma QueueIsIncreasing(m: Platform, setup: bool, bank: seq<Var>, updates: seq<Var>, i: nat, j: nat, k: nat)
    requires HasTs(bank) && Fold(m, setup, bank, updates).Done?
    requires i < j < |updates| && k < 4
    requires SlotOf(updates[i].key) == Some(k) && SlotOf(updates[j].key) == Some(k)
    ensures |updates[i].data| >= TIME_SIZE && |updates[j].data| >= TIME_SIZE
    ensures Unpack(TimeOf(updates[i].data)) < Unpack(TimeOf(updates[j].data))
  {
    hide Unpack;
    hide Step;
    var first, second := updates[..i + 1], updates[i + 1..];
    assert updates == first + second;
    FoldAppend(m, setup, bank, first, second);
    var mid := Fold(m, setup, bank, first).bank;
    QueueStamps(m, setup, bank, first, k);
    QueueStamps(m, setup, mid, second, k);
    assert updates[i] == first[i] && updates[i] in first;
    assert updates[j] == second[j - i - 1] && updates[j] in second;
  }

  // ---------- times over a history ----------

  /** A history: every run pre-processes and then takes its queue. */
  function Exec(m: Platform, st: State, queues: seq<seq<Var>>): (r: State)
    requires Invariant(st)
    ensures Invariant(r)
    decreases |queues|
  {
    if queues == [] then st
    else
      InvariantIsFixed(st);
      RunKeepsInvariant(m, st, queues[0]);
      Exec(m, Process(m, PreProcess(st), queues[0]).1, queues[1..])
  }

  lemma RunStamps(m: Platform, st: State, updates: seq<Var>, k: nat)
    requires Invariant(st) && k < 4
    ensures var (rc, after) := Process(m, st, updates);
            && HasTs(after.bank)
            && Stamp(after.bank, k) ==
                 (if rc == OPAL_SUCCESS then LastStamp(updates, k, Stamp(st.bank, k)) else Stamp(st.bank, k))
            && Stamp(st.bank, k) <= Stamp(after.bank, k)
  {
    RunKeepsInvariant(m, st, updates);
    RunIsAtomic(m, st, updates);
    if Fold(m, st.setup, st.bank, updates).Done? {
      QueueStamps(m, st.setup, st.bank, updates, k);
    }
  }

  /** Over any history, in either mode, no stored time decreases. */
  lemma {:induction false} HistoryIsMonotone(m: Platform, st: State, queues: seq<seq<Var>>, k: nat)
    requires Invariant(st) && k < 4
    ensures Stamp(st.bank, k) <= Stamp(Exec(m, st, queues).bank, k)
    decreases |queues|
  {
    if queues != [] {
      InvariantIsFixed(st);
      RunKeepsInvariant(m, st, queues[0]);
      RunStamps(m, st, queues[0], k);
      HistoryIsMonotone(m, Process(m, st, queues[0]).1, queues[1..], k);
    }
  }

  /** The updates of the queues that were accepted, in order. */
  function AcceptedIn(m: Platform, st: State, queues: seq<seq<Var>>): (r: seq<Var>)
    requires Invariant(st)
    decreases |queues|
  {
    if queues == [] then []
    else
      InvariantIsFixed(st);
      RunKeepsInvariant(m, st, queues[0]);
      var (rc, after) := Process(m, PreProcess(st), queues[0]);
      (if rc == OPAL_SUCCESS then queues[0] else []) + AcceptedIn(m, after, queues[1..])
  }

  lemma {:induction false} LastStampAppend(a: seq<Var>, b: seq<Var>, k: nat, stamp: nat)
    ensures LastStamp(a + b, k, stamp) == LastStamp(b, k, LastStamp(a, k, stamp))
  {
    if a == [] {
      assert a + b == b;
    } else {
      assert (a + b)[1..] == a[1..] + b;
      LastStampAppend(a[1..], b, k, StampAfter(a[0], k, stamp));
    }
  }

  /** After any history each stored time is that of the last accepted update of its variable. */
  lemma {:induction false} HistoryEndsAtLastAccepted(m: Platform, st: State, queues: seq<seq<Var>>, k: nat)
    requires Invariant(st) && k < 4
    ensures Stamp(Exec(m, st, queues).bank, k) == LastStamp(AcceptedIn(m, st, queues), k, Stamp(st.bank, k))
    decreases |queues|
  {
    if queues != [] {
      InvariantIsFixed(st);
      RunKeepsInvariant(m, st, queues[0]);
      RunStamps(m, st, queues[0], k);
      var (rc, after) := Process(m, st, queues[0]);
      HistoryEndsAtLastAccepted(m, after, queues[1..], k);
      LastStampAppend(if rc == OPAL_SUCCESS then queues[0] else [], AcceptedIn(m, after, queues[1..]), k, Stamp(st.bank, k));
    }
  }

  /** A queue holding an update no later than the stored time of its variable is refused as a whole. */
  lemma StaleQueueIsRefused(m: Platform, st: State, updates: seq<Var>, u: Var)
    requires Invariant(st) && u in updates && Signable(u.key) && |u.data| >= TIME_SIZE
    requires Unpack(TimeOf(u.data)) <= Stamp(st.bank, SlotOf(u.key).value)
    ensures Process(m, st, updates).0 != OPAL_SUCCESS
    ensures Process(m, st, updates).1 == st
  {
    RunIsAtomic(m, st, updates);
    if Fold(m, st.setup, st.bank, updates).Done? {
      QueueStamps(m, st.setup, st.bank, updates, SlotOf(u.key).value);
    }
  }

  /** After an accepted queue the stored time of each of its updates' variables is at least the update's. */
  lemma AcceptedIsStored(m: Platform, st: State, queue: seq<Var>, u: Var)
    requires Invariant(st) && u in queue && Process(m, st, queue).0 == OPAL_SUCCESS
    ensures Signable(u.key) && |u.data| >= TIME_SIZE && Invariant(Process(m, st, queue).1)
    ensures Unpack(TimeOf(u.data)) <= Stamp(Process(m, st, queue).1.bank, SlotOf(u.key).value)
  {
    hide Unpack;
    hide Step;
    RunKeepsInvariant(m, st, queue);
    RunIsAtomic(m, st, queue);
    QueueMembersAreSignable(m, st.setup, st.bank, queue, u);
    QueueStamps(m, st.setup, st.bank, queue, SlotOf(u.key).value);
  }

  /**
   * Once an update was accepted in state `st`, after any further runs a queue that holds it again is refused as a
   * whole and changes nothing.
   */
  lemma NoReplay(m: Platform, st: State, queue: seq<Var>, between: seq<seq<Var>>, later: seq<Var>, u: Var)
    requires Invariant(st) && u in queue && u in later
    requires Process(m, st, queue).0 == OPAL_SUCCESS
    ensures Invariant(Process(m, st, queue).1)
    ensures var s := Exec(m, Process(m, st, queue).1, between);
            && PreProcess(s) == s
            && Process(m, s, later).0 != OPAL_SUCCESS && Process(m, s, later).1 == s
  {
    AcceptedIsStored(m, st, queue, u);
    var accepted := Process(m, st, queue).1;
    HistoryIsMonotone(m, accepted, between, SlotOf(u.key).value);
    var s := Exec(m, accepted, between);
    InvariantIsFixed(s);
    StaleQueueIsRefused(m, s, later, u);
  }

  lemma {:induction false} QueueMembersAreSignable(m: Platform, setup: bool, bank: seq<Var>, updates: seq<Var>, u: Var)
    requires HasTs(bank) && Fold(m, setup, bank, updates).Done? && u in updates
    ensures Signable(u.key) && Splits(u.data)
    decreases |updates|
  {
    StepEffect(m, setup, bank, updates[0]);
    if u != updates[0] {
      assert u in updates[1..];
      QueueMembersAreSignable(m, setup, Step(m, setup, bank, updates[0]).bank, updates[1..], u);
    }
  }
}
