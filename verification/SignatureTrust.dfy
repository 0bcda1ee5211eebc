/**
 * The chain of trust with the parser and the verification of this repository, down to signatures. The verification
 * also passes a message without any signer, so an accepted update is signed exactly when its message has one.
 */
module SignatureTrust {
  import opened Bytes
  import opened Codes
  import opened Keys
  import opened Platform
  import opened Timestamp
  import opened Esl
  import opened Auth
  import opened PreImage
  import opened VerifySignature
  import opened EslListCheck
  import opened Update
  import opened Runs
  import opened Trust
  import opened EndToEnd
  import opened VerifyCommand
  import Der
  import Pkcs7Parser
  import Pkcs7RoundTrip

  /** The list carries a certificate whose key made one of the message's signatures over the digest. */
  predicate KeySigned(m: Platform, lib: Pkcs7Parser.Library, d: SignedData, digest: bytes, list: bytes)
    requires |list| >= ESL_HEADER
  {
    Usable(m, list) && Pkcs7Parser.SomeSignatureVerifies(lib, d, EslCert(m, list, |list|).data, digest)
  }

  /** Some list of the chain in `held` carries the certificate of a key that signed the update. */
  predicate SignedBy(m: Platform, lib: Pkcs7Parser.Library, u: Var, held: Blob)
    requires Splits(u.data) && Signable(u.key)
  {
    && m.pkcs7(Message(u.data)).Some?
    && exists l | l in Reached(held) :: KeySigned(m, lib, m.pkcs7(Message(u.data)).value, Digest(m, u.key, u.data), l)
  }

  /** Signed by a key held by PK, or for db and dbx by KEK or PK. */
  predicate SignedByAuthority(m: Platform, lib: Pkcs7Parser.Library, bank: seq<Var>, u: Var)
    requires Splits(u.data) && Signable(u.key)
  {
    || SignedBy(m, lib, u, Held(bank, PK))
    || ((KeyEquals(u.key, DB) || KeyEquals(u.key, DBX)) && SignedBy(m, lib, u, Held(bank, KEK)))
  }

  /** PK, or for db and dbx KEK or PK, holds data. */
  predicate AuthorityHolds(bank: seq<Var>, key: bytes) {
    Held(bank, PK) != [] || ((KeyEquals(key, DB) || KeyEquals(key, DBX)) && Held(bank, KEK) != [])
  }

  /** The update's message parses and has at least one signer. */
  predicate HasSigner(lib: Pkcs7Parser.Library, u: Var)
    requires Pkcs7Parser.Lawful(lib) && Splits(u.data)
  {
    match Pkcs7Parser.ParseResult(lib, Message(u.data))
    case Failed(_) => false
    case Parsed(d) => d.signers != []
  }

  // ---------- one update ----------

  lemma PassingIsKeySigned(m: Platform, lib: Pkcs7Parser.Library, d: SignedData, digest: bytes, list: bytes)
    requires Pkcs7Parser.Lawful(lib) && |list| >= ESL_HEADER && d.signers != []
    requires Passes(WithLibrary(m, lib), d, digest, list)
    ensures KeySigned(WithLibrary(m, lib), lib, d, digest, list)
  {
    hide EslCert;
    Pkcs7Parser.ZeroMeansSomeSignature(lib, d, EslCert(WithLibrary(m, lib), list, |list|).data, digest);
  }

  lemma SomePassingIsKeySigned(m: Platform, lib: Pkcs7Parser.Library, d: SignedData, digest: bytes, held: bytes)
    requires Pkcs7Parser.Lawful(lib) && d.signers != []
    requires HasFirstPassing(WithLibrary(m, lib), d, digest, Reached(held))
    ensures exists l | l in Reached(held) :: KeySigned(WithLibrary(m, lib), lib, d, digest, l)
  {
    var w, lists := WithLibrary(m, lib), Reached(held);
    hide WithLibrary;
    hide Reached;
    hide Usable;
    hide Passes;
    hide KeySigned;
    var j: int :| 0 <= j < |lists| && FirstPassing(w, d, digest, lists, j);
    assert lists[j] in lists;
    PassingIsKeySigned(m, lib, d, digest, lists[j]);
  }

  /** Passing the verification means a signature once the message has a signer. */
  lemma VerifiedWithSignerIsSigned(m: Platform, lib: Pkcs7Parser.Library, u: Var, held: Blob)
    requires Pkcs7Parser.Lawful(lib) && Splits(u.data) && Signable(u.key)
    requires VerifiedBy(WithLibrary(m, lib), u, held) && HasSigner(lib, u)
    ensures SignedBy(WithLibrary(m, lib), lib, u, held)
  {
    hide WithLibrary;
    hide HasSigner;
    hide Message;
    hide Splits;
    hide Signable;
    hide Digest;
    hide KeySigned;
    hide HasFirstPassing;
    hide Reached;
    var w := WithLibrary(m, lib);
    ParsedWithSigner(m, lib, u);
    SomePassingIsKeySigned(m, lib, w.pkcs7(Message(u.data)).value, Digest(w, u.key, u.data), held);
  }

  lemma ParsedWithSigner(m: Platform, lib: Pkcs7Parser.Library, u: Var)
    requires Pkcs7Parser.Lawful(lib) && Splits(u.data) && HasSigner(lib, u)
    ensures var parsed := WithLibrary(m, lib).pkcs7(Message(u.data)); parsed.Some? ==> parsed.value.signers != []
  {
    hide Pkcs7Parser.ParseResult;
    hide Message;
    hide Splits;
  }

  /** A signature needs a signer and a value that holds a list. */
  lemma SignedHasSigner(m: Platform, lib: Pkcs7Parser.Library, u: Var, held: Blob)
    requires Pkcs7Parser.Lawful(lib) && Splits(u.data) && Signable(u.key)
    requires SignedBy(WithLibrary(m, lib), lib, u, held)
    ensures HasSigner(lib, u) && held != []
  {
    hide Pkcs7Parser.ParseResult;
    hide Digest;
    hide Usable;
  }

  /** The names the engine tries are the authorities. */
  lemma TriedNames(key: bytes)
    requires Signable(key)
    ensures forall a :: a in Authorities(key) <==> a == PK || (a == KEK && (KeyEquals(key, DB) || KeyEquals(key, DBX)))
  {
  }

  /**
   * An update accepted in user mode is signed by a key that an authority holds at that moment exactly when its message
   * has a signer and some authority holds data. With a positive list count the latter is always so.
   */
  lemma AcceptedIsSignedExactly(m: Platform, lib: Pkcs7Parser.Library, bank: seq<Var>, u: Var)
    requires Pkcs7Parser.Lawful(lib) && HasTs(bank) && Shaped(bank) && ShapedUpdate(u)
    requires Step(WithLibrary(m, lib), false, bank, u).Done?
    ensures Splits(u.data) && Signable(u.key)
    ensures SignedByAuthority(WithLibrary(m, lib), lib, bank, u) <==> HasSigner(lib, u) && AuthorityHolds(bank, u.key)
    ensures CheckResult(WithLibrary(m, lib), u.key, NewValue(u.data)) > 0 ==> AuthorityHolds(bank, u.key)
  {
    hide *;
    AcceptedIsVerified(WithLibrary(m, lib), bank, u);
    TrustedIsSignedExactly(m, lib, bank, u, CheckResult(WithLibrary(m, lib), u.key, NewValue(u.data)));
  }

  lemma TrustedIsSignedExactly(m: Platform, lib: Pkcs7Parser.Library, bank: seq<Var>, u: Var, count: int)
    requires Pkcs7Parser.Lawful(lib) && Splits(u.data) && Signable(u.key)
    requires || (exists a | a in Authorities(u.key) :: VerifiedBy(WithLibrary(m, lib), u, Held(bank, a)))
             || (count <= 0 && forall a | a in Authorities(u.key) :: Held(bank, a) == [])
    ensures SignedByAuthority(WithLibrary(m, lib), lib, bank, u) <==> HasSigner(lib, u) && AuthorityHolds(bank, u.key)
    ensures count > 0 ==> AuthorityHolds(bank, u.key)
  {
    TriedNames(u.key);
    hide WithLibrary;
    hide Splits;
    hide Signable;
    hide HasSigner;
    hide VerifiedBy;
    hide SignedBy;
    hide Held;
    hide Authorities;
    hide KeyEquals;
    SignatureBehindVerification(m, lib, u, Held(bank, PK));
    SignatureBehindVerification(m, lib, u, Held(bank, KEK));
  }

  /** For a value that holds data the two meet; for one that does not, neither passing nor a signature is possible. */
  lemma SignatureBehindVerification(m: Platform, lib: Pkcs7Parser.Library, u: Var, held: Blob)
    requires Pkcs7Parser.Lawful(lib) && Splits(u.data) && Signable(u.key)
    ensures SignedBy(WithLibrary(m, lib), lib, u, held) ==> HasSigner(lib, u) && held != []
    ensures VerifiedBy(WithLibrary(m, lib), u, held) ==> held != []
    ensures VerifiedBy(WithLibrary(m, lib), u, held) && HasSigner(lib, u) ==> SignedBy(WithLibrary(m, lib), lib, u, held)
  {
    if SignedBy(WithLibrary(m, lib), lib, u, held) {
      SignedHasSigner(m, lib, u, held);
    }
    if VerifiedBy(WithLibrary(m, lib), u, held) && HasSigner(lib, u) {
      VerifiedWithSignerIsSigned(m, lib, u, held);
    }
    hide SignedBy;
    hide HasSigner;
  }

  // ---------- queues and the command ----------

  /**
   * The chain of trust over a whole queue, down to signatures. After the banks passed validation with PK present, if
   * the first `i` updates were accepted and left `mid` and update `i` is accepted with a positive list count, then it
   * is signed by a key then held by PK (for PK and KEK) or by KEK or PK (for db and dbx) exactly when its message has
   * a signer.
   */
  lemma ChainOfSignatures(m: Platform, lib: Pkcs7Parser.Library, bank: seq<Var>, updates: seq<Var>, i: nat)
    requires Pkcs7Parser.Lawful(lib) && UniqueKeys(bank) && Find(bank, PK_KEY).Some?
    requires BanksResult(WithLibrary(m, lib), updates, bank) == SUCCESS && i < |updates|
    requires var w, st := WithLibrary(m, lib), PreProcess(State(bank, false));
             HasTs(st.bank) && Fold(w, st.setup, st.bank, updates[..i]).Done?
    ensures var w, st := WithLibrary(m, lib), PreProcess(State(bank, false));
            var mid, u := Fold(w, st.setup, st.bank, updates[..i]).bank, updates[i];
            && !st.setup && HasTs(mid)
            && (Step(w, st.setup, mid, u).Done? ==>
                  && Splits(u.data) && Signable(u.key)
                  && (SignedByAuthority(w, lib, mid, u) <==> HasSigner(lib, u) && AuthorityHolds(mid, u.key))
                  && (CheckResult(w, u.key, NewValue(u.data)) > 0 ==>
                        (SignedByAuthority(w, lib, mid, u) <==> HasSigner(lib, u))))
  {
    var w, st := WithLibrary(m, lib), PreProcess(State(bank, false));
    assert UpdatesResult(w, updates) == SUCCESS;
    hide *;
    ValidatedUpdatesAreShaped(w, updates);
    ChainOfTrust(w, bank, updates, i);
    ChainStep(m, lib, st.setup, Fold(w, st.setup, st.bank, updates[..i]).bank, updates, i);
  }

  lemma ChainStep(m: Platform, lib: Pkcs7Parser.Library, setup: bool, mid: seq<Var>, updates: seq<Var>, i: nat)
    requires Pkcs7Parser.Lawful(lib) && !setup && HasTs(mid) && Shaped(mid) && ShapedUpdates(updates) && i < |updates|
    ensures var w, u := WithLibrary(m, lib), updates[i];
            Step(w, setup, mid, u).Done? ==>
              && Splits(u.data) && Signable(u.key)
              && (SignedByAuthority(w, lib, mid, u) <==> HasSigner(lib, u) && AuthorityHolds(mid, u.key))
              && (CheckResult(w, u.key, NewValue(u.data)) > 0 ==> AuthorityHolds(mid, u.key))
  {
    assert updates[i] in updates && ShapedUpdate(updates[i]);
    hide *;
    if Step(WithLibrary(m, lib), setup, mid, updates[i]).Done? {
      AcceptedIsSignedExactly(m, lib, mid, updates[i]);
    }
  }

  /**
   * The same for the `verify` command: when it succeeds with PK present and no key twice, every update that counts a
   * list is signed by a key its authorities hold where it stands in the queue, exactly when its message has a signer.
   */
  lemma VerifiedQueueIsSigned(m: Platform, lib: Pkcs7Parser.Library, updates: seq<Var>, bank: seq<Var>, i: nat)
    requires Pkcs7Parser.Lawful(lib) && UniqueKeys(bank) && Find(bank, PK_KEY).Some? && i < |updates|
    requires CommandResult(WithLibrary(m, lib), updates, bank) == SUCCESS
    ensures var w, st, u := WithLibrary(m, lib), PreProcess(State(bank, false)), updates[i];
            && HasTs(st.bank) && Fold(w, st.setup, st.bank, updates[..i]).Done?
            && Splits(u.data) && Signable(u.key)
            && var mid := Fold(w, st.setup, st.bank, updates[..i]).bank;
               CheckResult(w, u.key, NewValue(u.data)) > 0 ==> (SignedByAuthority(w, lib, mid, u) <==> HasSigner(lib, u))
  {
    var w, st := WithLibrary(m, lib), PreProcess(State(bank, false));
    CommandResultCases(w, updates, bank);
    assert Process(w, st, updates).0 == OPAL_SUCCESS;
    hide WithLibrary;
    hide CommandResult;
    hide BanksResult;
    hide Update.PreProcess;
    hide Step;
    hide Fold;
    hide SignedByAuthority;
    hide HasSigner;
    hide CheckResult;
    RunIsAtomic(w, st, updates);
    hide Update.Process;
    QueuePassesExactly(w, st.setup, st.bank, updates);
    assert AcceptedAt(w, st.setup, st.bank, updates, i);
    ChainOfSignatures(m, lib, bank, updates, i);
  }

  // ---------- the failing input ----------

  /** A message without signers parses, and the verification passes it for any certificate and any digest. */
  lemma UnsignedMessagePasses(m: Platform, lib: Pkcs7Parser.Library, hashOid: bytes, cert: bytes)
    requires Pkcs7Parser.Lawful(lib) && lib.mdAlg(hashOid) == 0
    requires Pkcs7RoundTrip.SelfDelimiting(lib, cert) && m.certOk(cert)
    requires |Der.ContentInfo(hashOid, [cert], [])| < U32_LIMIT
    ensures var w, message := WithLibrary(m, lib), Der.ContentInfo(hashOid, [cert], []);
            && Pkcs7Parser.ParseResult(lib, message) == Pkcs7Parser.Parsed(SignedData(1, hashOid, [cert], []))
            && w.pkcs7(message) == Some(SignedData(1, hashOid, [cert], []))
            && forall c, digest :: w.verify(w.pkcs7(message).value, c, digest) == 0
  {
    Pkcs7RoundTrip.MessageReadsBack(lib, hashOid, [cert], []);
    assert Pkcs7RoundTrip.Mirror([cert]) == [cert];
    hide Pkcs7Parser.ParseResult;
    hide Der.ContentInfo;
  }

  /**
   * "An update accepted in user mode is signed by a key its authorities hold" fails on a well-formed, later update
   * whose message has no signer: it is accepted, and nobody has signed it.
   */
  lemma UnsignedUpdateIsAccepted(m: Platform, lib: Pkcs7Parser.Library, hashOid: bytes, cert: bytes, bank: seq<Var>, u: Var,
                                 t: EfiTime, item: Item, name: bytes, items: seq<Item>, j: nat)
    requires Pkcs7Parser.Lawful(lib) && lib.mdAlg(hashOid) == 0
    requires Pkcs7RoundTrip.SelfDelimiting(lib, cert) && m.certOk(cert)
    requires AUTH_HEADER + |Der.ContentInfo(hashOid, [cert], [])| + |Encode(item)| <= INT_MAX
    requires u.data == EncodeAuth(t, Der.ContentInfo(hashOid, [cert], []), Encode(item)) && Signable(u.key)
    requires HasTs(bank) && LexLess(Fields(Slot(Store(bank), SlotOf(u.key).value)), Fields(t))
    requires Acceptable(m, u.key, item.sigType, item.data)
    requires name in Authorities(u.key) && j < |items| && HoldsChain(m, Held(bank, name), items, j, items[j].data)
    ensures Decide(WithLibrary(m, lib), false, u, bank, Store(bank)) == Accept(Encode(item), t)
    ensures Splits(u.data) && !HasSigner(lib, u) && !SignedByAuthority(WithLibrary(m, lib), lib, bank, u)
  {
    hide Der.ContentInfo;
    hide Pkcs7Parser.ParseResult;
    hide Pkcs7Parser.Lawful;
    hide Pkcs7RoundTrip.SelfDelimiting;
    hide WithLibrary;
    hide HoldsChain;
    hide Acceptable;
    hide EncodeAuth;
    hide Encode;
    hide Splits;
    hide Message;
    hide HasTs;
    hide Held;
    hide LexLess;
    hide Decide;
    hide HasSigner;
    hide SignedByAuthority;
    var w, message := WithLibrary(m, lib), Der.ContentInfo(hashOid, [cert], []);
    UnsignedMessagePasses(m, lib, hashOid, cert);
    SamePlatform(m, lib, u.key, item, Held(bank, name), items, j);
    EncodedAuth(t, message, Encode(item));
    WellFormedIsAccepted(w, false, bank, u, t, message, item, name, items, j, items[j].data);
    NobodySigned(m, lib, bank, u);
  }

  /** The library plays no part in the shape of chains and values. */
  lemma SamePlatform(m: Platform, lib: Pkcs7Parser.Library, key: bytes, item: Item, held: bytes, items: seq<Item>, j: nat)
    requires Pkcs7Parser.Lawful(lib) && Acceptable(m, key, item.sigType, item.data)
    requires j < |items| && HoldsChain(m, held, items, j, items[j].data)
    ensures HoldsChain(WithLibrary(m, lib), held, items, j, items[j].data)
    ensures Acceptable(WithLibrary(m, lib), key, item.sigType, item.data)
  {
    hide EncodeAll;
    hide ValidateHash;
  }

  lemma NobodySigned(m: Platform, lib: Pkcs7Parser.Library, bank: seq<Var>, u: Var)
    requires Pkcs7Parser.Lawful(lib) && Splits(u.data) && Signable(u.key)
    requires match Pkcs7Parser.ParseResult(lib, Message(u.data)) case Failed(_) => true case Parsed(d) => d.signers == []
    ensures !HasSigner(lib, u) && !SignedByAuthority(WithLibrary(m, lib), lib, bank, u)
  {
    assert !HasSigner(lib, u);
    hide HasSigner;
    hide SignedBy;
    hide Held;
    hide WithLibrary;
    hide KeyEquals;
    hide Pkcs7Parser.ParseResult;
    SignatureBehindVerification(m, lib, u, Held(bank, PK));
    SignatureBehindVerification(m, lib, u, Held(bank, KEK));
  }
}
