/** From a generated file to its acceptance: the tool's generator and the engine fit together. */
module EndToEnd {
  import opened Bytes
  import opened Codes
  import opened Keys
  import opened Platform
  import opened Timestamp
  import opened Esl
  import opened Auth
  import opened PreImage
  import opened VerifySignature
  import opened EslListCheck
  import opened Update
  import opened Runs
  import Acceptance
  import opened Der
  import Pkcs7Writer
  import Pkcs7Parser
  import Pkcs7RoundTrip

  // ---------- acceptance of a well-formed file ----------

  /** The authority holds a chain of generated lists, all of parsing certificates, and the one at `j` has key `cert`. */
  predicate HoldsChain(m: Platform, held: bytes, items: seq<Item>, j: nat, cert: bytes) {
    && j < |items| && held == EncodeAll(items) && items[j].data == cert
    && forall x | x in items :: m.certOk(x.data)
  }

  /** A message that a certificate of such a chain verifies is accepted for that authority. */
  lemma ChainAccepts(m: Platform, message: bytes, digest: bytes, held: bytes, items: seq<Item>, j: nat, cert: bytes)
    requires HoldsChain(m, held, items, j, cert)
    requires m.pkcs7(message).Some? && m.verify(m.pkcs7(message).value, cert, digest) == 0
    ensures held != [] && VerifyResult(m, message, digest, held) == OPAL_SUCCESS
  {
    ChainVerifies(m, m.pkcs7(message).value, digest, items);
    assert EncodeAll(items) == Encode(items[0]) + EncodeAll(items[1..]);
  }

  /**
   * A file laid out by the generator for a single list of the right kind, with a later time and a message that some
   * certificate of an authority's chain verifies, is accepted in either mode with exactly the list it was made from.
   */
  lemma WellFormedIsAccepted(m: Platform, setup: bool, bank: seq<Var>, u: Var, t: EfiTime, message: bytes, item: Item,
                             name: bytes, items: seq<Item>, j: nat, cert: bytes)
    requires HasTs(bank) && Signable(u.key) && AUTH_HEADER + |message| + |Encode(item)| <= INT_MAX
    requires u.data == EncodeAuth(t, message, Encode(item))
    requires Acceptable(m, u.key, item.sigType, item.data)
    requires LexLess(Fields(Slot(Store(bank), SlotOf(u.key).value)), Fields(t))
    requires name in Authorities(u.key) && HoldsChain(m, Held(bank, name), items, j, cert)
    requires m.pkcs7(message).Some?
    requires m.verify(m.pkcs7(message).value, cert, m.hash(SignedBytes(u.key, t, Encode(item)))) == 0
    ensures Decide(m, setup, u, bank, Store(bank)) == Accept(Encode(item), t)
  {
    EncodedAuth(t, message, Encode(item));
    CheckIsLaterThan(u.key, t, Store(bank));
    EncodedItemPasses(m, u.key, item);
    var digest := m.hash(SignedBytes(u.key, t, Encode(item)));
    ChainAccepts(m, message, digest, Held(bank, name), items, j, cert);
    TryAuthoritiesExact(m, message, digest, Authorities(u.key), bank, 1);
  }

  // ---------- with the parser and the verifier of this repository ----------

  /** The platform whose PKCS7 parsing and verification are the repository's own. */
  function WithLibrary(m: Platform, lib: Pkcs7Parser.Library): (r: Platform)
    requires Pkcs7Parser.Lawful(lib)
  {
    m.(pkcs7 := b => ParsedMessage(m, lib, b),
       verify := (d, cert, digest) => Pkcs7Parser.HashVerifyResult(lib, d, cert, digest))
  }

  /** `get_pkcs7`: a message is usable if its first certificate, if there is one, can be described. */
  function ParsedMessage(m: Platform, lib: Pkcs7Parser.Library, b: bytes): (r: Option<SignedData>)
    requires Pkcs7Parser.Lawful(lib)
  {
    match Pkcs7Parser.ParseResult(lib, b)
    case Failed(_) => None
    case Parsed(d) => if d.certs == [] || m.certOk(d.certs[0]) then Some(d) else None
  }

  /** What the generator signs with, for one variable, time and value. */
  function InfoFor(crts: seq<bytes>, keys: seq<bytes>, alreadySigned: bool, hashOid: bytes, key: bytes, t: EfiTime, esl: bytes)
    : (r: Pkcs7Writer.Pkcs7Info)
    requires Signable(key)
  {
    Pkcs7Writer.Pkcs7Info(crts, keys, alreadySigned, SignedBytes(key, t, esl), hashOid)
  }

  /** The library can read back the certificates and their issuers, and knows the digest algorithm. */
  ghost predicate Understood(m: Platform, lib: Pkcs7Parser.Library, env: Pkcs7Writer.Signing, info: Pkcs7Writer.Pkcs7Info)
    requires |info.crts| == |info.keys| && Pkcs7Writer.Signed(env, info)
  {
    && lib.mdAlg(info.hashOid) == 0
    && (forall c | c in info.crts :: Pkcs7RoundTrip.SelfDelimiting(lib, c) && m.certOk(c))
    && forall s | s in Pkcs7Writer.Parts(env, info, |info.crts|) :: Pkcs7RoundTrip.HasReadableIssuer(lib, s)
  }

  /** What the parser makes of the generated message. */
  function DataFrom(env: Pkcs7Writer.Signing, info: Pkcs7Writer.Pkcs7Info): (r: SignedData)
    requires |info.crts| == |info.keys| && Pkcs7Writer.Signed(env, info)
  {
    Pkcs7RoundTrip.DataOf(info.hashOid, info.crts, Pkcs7Writer.Parts(env, info, |info.crts|))
  }

  lemma GeneratedMessageParses(m: Platform, lib: Pkcs7Parser.Library, env: Pkcs7Writer.Signing, info: Pkcs7Writer.Pkcs7Info)
    requires Pkcs7Parser.Lawful(lib) && |info.crts| == |info.keys| && Pkcs7Writer.Signed(env, info)
    requires Understood(m, lib, env, info) && |Pkcs7Writer.MessageOf(env, info)| < U32_LIMIT
    ensures ParsedMessage(m, lib, Pkcs7Writer.MessageOf(env, info)) == Some(DataFrom(env, info))
  {
    var d := DataFrom(env, info);
    assert d.certs[0] == info.crts[|info.crts| - 1];
    hide ContentInfo;
    hide Pkcs7Parser.ParseResult;
    hide Pkcs7RoundTrip.Mirror;
    Pkcs7RoundTrip.MessageReadsBack(lib, info.hashOid, info.crts, Pkcs7Writer.Parts(env, info, |info.crts|));
  }

  /** A message is usable exactly when the certificate written first, which is the last one given, can be described. */
  lemma FirstCertificateDecides(m: Platform, lib: Pkcs7Parser.Library, hashOid: bytes, certs: seq<bytes>, signers: seq<SignerPart>)
    requires Pkcs7Parser.Lawful(lib) && lib.mdAlg(hashOid) == 0 && |ContentInfo(hashOid, certs, signers)| < U32_LIMIT
    requires certs != [] && forall c | c in certs :: Pkcs7RoundTrip.SelfDelimiting(lib, c)
    requires forall s | s in signers :: Pkcs7RoundTrip.HasReadableIssuer(lib, s)
    ensures ParsedMessage(m, lib, ContentInfo(hashOid, certs, signers)).Some? <==> m.certOk(certs[|certs| - 1])
  {
    hide ContentInfo;
    hide Pkcs7Parser.ParseResult;
    hide Pkcs7Parser.Lawful;
    hide Pkcs7RoundTrip.Mirror;
    hide Pkcs7RoundTrip.SelfDelimiting;
    hide Pkcs7RoundTrip.HasReadableIssuer;
    Pkcs7RoundTrip.MessageReadsBack(lib, hashOid, certs, signers);
    assert Pkcs7RoundTrip.Mirror(certs)[0] == certs[|certs| - 1];
  }

  /**
   * What is read back of a generated message, in terms of what it was generated from: the certificates and signers come
   * last first, each signer names its certificate's issuer and serial, and its signature is the one its private key
   * made over the data, or the one given for it.
   */
  lemma GeneratedMessageHolds(m: Platform, lib: Pkcs7Parser.Library, env: Pkcs7Writer.Signing, info: Pkcs7Writer.Pkcs7Info, i: nat)
    requires Pkcs7Parser.Lawful(lib) && |info.crts| == |info.keys| && Pkcs7Writer.Signed(env, info)
    requires Understood(m, lib, env, info) && |Pkcs7Writer.MessageOf(env, info)| < U32_LIMIT && i < |info.crts|
    ensures var parsed, n := ParsedMessage(m, lib, Pkcs7Writer.MessageOf(env, info)), |info.crts|;
            && parsed.Some? && env.parse(info.crts[i]).Some?
            && var d, cert := parsed.value, env.parse(info.crts[i]).value;
               && d.version == 1 && d.digestAlg == info.hashOid && |d.certs| == |d.signers| == n
               && d.certs[n - 1 - i] == info.crts[i]
               && var s := d.signers[n - 1 - i];
                  && s.version == 1 && s.issuer == cert.issuer && s.serial == cert.serial
                  && s.digestAlg == info.hashOid && s.sigAlg == PKCS1_RSA
                  && (info.alreadySigned ==> s.sig == info.keys[i])
                  && (!info.alreadySigned ==> env.sign(info.crts[i], info.keys[i], info.newData) == Some(s.sig))
  {
    hide ParsedMessage;
    hide Understood;
    hide DataFrom;
    hide Pkcs7Parser.Lawful;
    hide Pkcs7Writer.MessageOf;
    hide Pkcs7Writer.Signed;
    hide Pkcs7Writer.Signers;
    GeneratedMessageParses(m, lib, env, info);
    SignerIsAt(env, info, i);
    Pkcs7Writer.SignersAre(env, info, i);
  }

  lemma SignerIsAt(env: Pkcs7Writer.Signing, info: Pkcs7Writer.Pkcs7Info, i: nat)
    requires |info.crts| == |info.keys| && Pkcs7Writer.Signed(env, info) && i < |info.crts|
    ensures var d, part, n := DataFrom(env, info), Pkcs7Writer.Signers(env, info)[i], |info.crts|;
            && d.version == 1 && d.digestAlg == info.hashOid && |d.certs| == |d.signers| == n
            && d.certs[n - 1 - i] == info.crts[i]
            && d.signers[n - 1 - i] == Signer(1, part.issuer, part.serial, info.hashOid, PKCS1_RSA, part.sig)
  {
    hide Pkcs7Writer.Signed;
    hide Pkcs7Writer.Signers;
    hide Pkcs7RoundTrip.Mirror;
    hide Pkcs7RoundTrip.SignersOf;
  }

  /** The signature with the key of signer `i`, made over the data or given, verifies with that signer's certificate. */
  predicate SignatureVerifies(lib: Pkcs7Parser.Library, env: Pkcs7Writer.Signing, info: Pkcs7Writer.Pkcs7Info, digest: bytes, i: nat)
    requires i < |info.crts| == |info.keys|
  {
    if info.alreadySigned then lib.pkVerify(info.crts[i], info.hashOid, digest, info.keys[i]) == 0
    else
      match env.sign(info.crts[i], info.keys[i], info.newData)
      case None => false
      case Some(sig) => lib.pkVerify(info.crts[i], info.hashOid, digest, sig) == 0
  }

  /**
   * The generated message is parsed back and verifies with the certificate of any signer whose signature, as it was made
   * or given, verifies.
   */
  lemma GeneratedMessageVerifies(m: Platform, lib: Pkcs7Parser.Library, env: Pkcs7Writer.Signing, info: Pkcs7Writer.Pkcs7Info,
                                 digest: bytes, i: nat)
    requires Pkcs7Parser.Lawful(lib) && |info.crts| == |info.keys| && Pkcs7Writer.Signed(env, info)
    requires Understood(m, lib, env, info) && |Pkcs7Writer.MessageOf(env, info)| < U32_LIMIT
    requires i < |info.crts| && SignatureVerifies(lib, env, info, digest, i)
    ensures var parsed := WithLibrary(m, lib).pkcs7(Pkcs7Writer.MessageOf(env, info));
            parsed.Some? && WithLibrary(m, lib).verify(parsed.value, info.crts[i], digest) == 0
  {
    hide WithLibrary;
    hide ParsedMessage;
    hide Understood;
    hide SignatureVerifies;
    hide Pkcs7Parser.Lawful;
    hide Pkcs7Parser.HashVerifyResult;
    hide Pkcs7Writer.MessageOf;
    hide Pkcs7Writer.Signed;
    ParsedAndVerified(m, lib, env, info, digest, i);
    var message := Pkcs7Writer.MessageOf(env, info);
    LibraryParts(m, lib, message, ParsedMessage(m, lib, message).value, info.crts[i], digest);
  }

  lemma ParsedAndVerified(m: Platform, lib: Pkcs7Parser.Library, env: Pkcs7Writer.Signing, info: Pkcs7Writer.Pkcs7Info,
                          digest: bytes, i: nat)
    requires Pkcs7Parser.Lawful(lib) && |info.crts| == |info.keys| && Pkcs7Writer.Signed(env, info)
    requires Understood(m, lib, env, info) && |Pkcs7Writer.MessageOf(env, info)| < U32_LIMIT
    requires i < |info.crts| && SignatureVerifies(lib, env, info, digest, i)
    ensures var parsed := ParsedMessage(m, lib, Pkcs7Writer.MessageOf(env, info));
            parsed.Some? && Pkcs7Parser.HashVerifyResult(lib, parsed.value, info.crts[i], digest) == 0
  {
    hide ParsedMessage;
    hide Understood;
    hide SignatureVerifies;
    hide Pkcs7Parser.Lawful;
    hide Pkcs7Parser.HashVerifyResult;
    hide Pkcs7Writer.MessageOf;
    hide Pkcs7Writer.Signed;
    KnowsDigest(m, lib, env, info);
    GeneratedMessageHolds(m, lib, env, info, i);
    var d, j := ParsedMessage(m, lib, Pkcs7Writer.MessageOf(env, info)).value, |info.crts| - 1 - i;
    MadeOrGiven(lib, env, info, digest, i, d.signers[j].sig);
    VerifyingSignatureDecides(lib, d, info.crts[i], digest, j);
  }

  lemma KnowsDigest(m: Platform, lib: Pkcs7Parser.Library, env: Pkcs7Writer.Signing, info: Pkcs7Writer.Pkcs7Info)
    requires |info.crts| == |info.keys| && Pkcs7Writer.Signed(env, info) && Understood(m, lib, env, info)
    ensures lib.mdAlg(info.hashOid) == 0
  {
  }

  lemma MadeOrGiven(lib: Pkcs7Parser.Library, env: Pkcs7Writer.Signing, info: Pkcs7Writer.Pkcs7Info, digest: bytes, i: nat, sig: bytes)
    requires i < |info.crts| == |info.keys| && SignatureVerifies(lib, env, info, digest, i)
    requires if info.alreadySigned then sig == info.keys[i]
             else env.sign(info.crts[i], info.keys[i], info.newData) == Some(sig)
    ensures lib.pkVerify(info.crts[i], info.hashOid, digest, sig) == 0
  {
  }

  lemma LibraryParts(m: Platform, lib: Pkcs7Parser.Library, message: bytes, d: SignedData, cert: bytes, digest: bytes)
    requires Pkcs7Parser.Lawful(lib)
    ensures WithLibrary(m, lib).pkcs7(message) == ParsedMessage(m, lib, message)
    ensures WithLibrary(m, lib).verify(d, cert, digest) == Pkcs7Parser.HashVerifyResult(lib, d, cert, digest)
  {
    hide ParsedMessage;
    hide Pkcs7Parser.HashVerifyResult;
  }

  lemma VerifyingSignatureDecides(lib: Pkcs7Parser.Library, d: SignedData, cert: bytes, digest: bytes, j: nat)
    requires lib.mdAlg(d.digestAlg) == 0 && j < |d.signers|
    requires lib.pkVerify(cert, d.digestAlg, digest, d.signers[j].sig) == 0
    ensures Pkcs7Parser.HashVerifyResult(lib, d, cert, digest) == 0
  {
    assert Pkcs7Parser.SomeSignatureVerifies(lib, d, cert, digest);
  }

  /** `toAuth`: the bytes to sign, the message over them, and the file made of header, message and value. */
  method GenerateAuth(env: Pkcs7Writer.Signing, crts: seq<bytes>, keys: seq<bytes>, alreadySigned: bool, hashOid: bytes,
                      key: bytes, t: EfiTime, esl: bytes)
    returns (rc: int, out: array<byte>)
    requires |crts| == |keys|
    requires Signable(key) ==>
               var info := InfoFor(crts, keys, alreadySigned, hashOid, key, t, esl);
               Pkcs7Writer.Signed(env, info) ==> CERT_HEADER + |Pkcs7Writer.MessageOf(env, info)| <= INT_MAX
    ensures rc == SUCCESS <==> Signable(key) && Pkcs7Writer.Signed(env, InfoFor(crts, keys, alreadySigned, hashOid, key, t, esl))
    ensures rc == SUCCESS ==>
              var info := InfoFor(crts, keys, alreadySigned, hashOid, key, t, esl);
              out[..] == EncodeAuth(t, Pkcs7Writer.MessageOf(env, info), esl)
  {
    var actualData;
    rc, actualData := GetPreHash(key, t, esl);
    out := actualData;
    if rc != SUCCESS {
      return;
    }
    var info := Pkcs7Writer.Pkcs7Info(crts, keys, alreadySigned, actualData[..], hashOid);
    assert info == InfoFor(crts, keys, alreadySigned, hashOid, key, t, esl);
    var pkcs7;
    rc, pkcs7 := Pkcs7Writer.ToPkcs7(env, info);
    if rc != SUCCESS {
      return PKCS7_FAIL, out;
    }
    rc, out := ToAuth(t, pkcs7, esl);
  }

  /**
   * End to end: the file generated for a single list is accepted by the engine, which parses and verifies the message
   * with this repository's code, and yields exactly that list, when the time is later than the stored one, the list
   * is of the kind the variable takes, and one of the signers' certificates, with which the signature its private key
   * makes over the signed bytes verifies, stands in a well-formed chain held by an authority.
   */
  lemma GeneratedUpdateIsAccepted(m: Platform, lib: Pkcs7Parser.Library, env: Pkcs7Writer.Signing, info: Pkcs7Writer.Pkcs7Info,
                                  i: nat, setup: bool, bank: seq<Var>, u: Var, t: EfiTime, item: Item,
                                  name: bytes, items: seq<Item>, j: nat)
    requires Pkcs7Parser.Lawful(lib) && |info.crts| == |info.keys| && Pkcs7Writer.Signed(env, info) && Signable(u.key)
    requires info == InfoFor(info.crts, info.keys, info.alreadySigned, info.hashOid, u.key, t, Encode(item))
    requires Understood(m, lib, env, info) && i < |info.crts|
    requires SignatureVerifies(lib, env, info, m.hash(SignedBytes(u.key, t, Encode(item))), i)
    requires AUTH_HEADER + |Pkcs7Writer.MessageOf(env, info)| + |Encode(item)| <= INT_MAX
    requires u.data == EncodeAuth(t, Pkcs7Writer.MessageOf(env, info), Encode(item))
    requires HasTs(bank) && LexLess(Fields(Slot(Store(bank), SlotOf(u.key).value)), Fields(t))
    requires Acceptable(m, u.key, item.sigType, item.data)
    requires name in Authorities(u.key) && HoldsChain(m, Held(bank, name), items, j, info.crts[i])
    ensures Decide(WithLibrary(m, lib), setup, u, bank, Store(bank)) == Accept(Encode(item), t)
  {
    var message := Pkcs7Writer.MessageOf(env, info);
    GeneratedMessageVerifies(m, lib, env, info, m.hash(SignedBytes(u.key, t, Encode(item))), i);
    var w := WithLibrary(m, lib);
    assert HoldsChain(w, Held(bank, name), items, j, info.crts[i]);
    assert Acceptable(w, u.key, item.sigType, item.data);
    hide Pkcs7Writer.MessageOf;
    WellFormedIsAccepted(w, setup, bank, u, t, message, item, name, items, j, info.crts[i]);
  }

  /** A run over one accepted update installs its value and its time and leaves every other variable and time alone. */
  lemma AcceptedIsInstalled(m: Platform, st: State, u: Var, esl: Blob, t: EfiTime)
    requires Invariant(st) && Find(st.bank, u.key).Some?
    requires Decide(m, st.setup, u, st.bank, Store(st.bank)) == Accept(esl, t)
    ensures var (rc, after) := Process(m, st, [u]);
            && rc == OPAL_SUCCESS
            && Replaced(st.bank, u, esl, t, after.bank)
            && Find(after.bank, u.key) == Find(st.bank, u.key)
            && after.bank[Find(after.bank, u.key).value].data == esl
            && Slot(Store(after.bank), SlotOf(u.key).value) == t
            && var was, now := st.bank[Find(st.bank, u.key).value].flags, after.bank[Find(after.bank, u.key).value].flags;
               && (now.isVolatile <==> esl == [])
               && (now.isProtected <==> was.isProtected || CStr(u.key) == PK || CStr(u.key) == HWKH)
               && now.others == was.others
  {
    hide Decide;
    hide Step;
    hide Splits;
    hide Replaced;
    hide SameKeys;
    hide Fold;
    AcceptedStep(m, st.setup, st.bank, u, esl, t);
    SingleFold(m, st.setup, st.bank, u);
    RunIsAtomic(m, st, [u]);
    hide Update.Process;
    hide UniqueKeys;
    var next := Step(m, st.setup, st.bank, u).bank;
    InstalledReads(st.bank, u, esl, t, next);
    Acceptance.FlagsAfterReplaced(st.bank, u, esl, t, next);
  }

  lemma AcceptedStep(m: Platform, setup: bool, bank: seq<Var>, u: Var, esl: Blob, t: EfiTime)
    requires HasTs(bank) && Find(bank, u.key).Some? && Decide(m, setup, u, bank, Store(bank)) == Accept(esl, t)
    ensures Step(m, setup, bank, u).Done?
    ensures var next := Step(m, setup, bank, u).bank; Replaced(bank, u, esl, t, next) && SameKeys(bank, next)
  {
    StepEffect(m, setup, bank, u);
    hide Decide;
    hide Replaced;
    hide SameKeys;
    hide Apply;
  }

  /** What was stored is found again. */
  lemma InstalledReads(bank: seq<Var>, u: Var, esl: Blob, t: EfiTime, next: seq<Var>)
    requires HasTs(bank) && Replaced(bank, u, esl, t, next) && SameKeys(bank, next)
    ensures Find(next, u.key) == Find(bank, u.key)
    ensures next[Find(next, u.key).value].data == esl && HasTs(next) && Slot(Store(next), SlotOf(u.key).value) == t
  {
    SameKeysSameFind(bank, next, u.key);
    SetSlotReads(Store(bank), SlotOf(u.key).value, t, SlotOf(u.key).value);
    hide SetSlot;
    hide Slot;
    hide SameKeys;
  }

  /**
   * Enrolment: a system without variables starts in setup mode and takes any well-formed update of the four variables,
   * whoever signed it, as long as its time is not all zero; once PK is enrolled the mode is user mode.
   */
  lemma FirstBootTakesWellFormedUpdate(m: Platform, key: bytes, t: EfiTime, message: bytes, item: Item)
    requires key in {PK_KEY, KEK_KEY, DB_KEY, DBX_KEY} && Acceptable(m, key, item.sigType, item.data)
    requires AUTH_HEADER + |message| + |Encode(item)| <= INT_MAX && LexLess(Fields(Zeros(TIME_SIZE)), Fields(t))
    ensures var st := PreProcess(State([], false));
            && Invariant(st) && st.setup
            && var (rc, after) := Process(m, st, [Var(key, EncodeAuth(t, message, Encode(item)), NO_FLAGS)]);
               && rc == OPAL_SUCCESS
               && Find(after.bank, key).Some? && after.bank[Find(after.bank, key).value].data == Encode(item)
               && (after.setup <==> key != PK_KEY)
  {
    var u := Var(key, EncodeAuth(t, message, Encode(item)), NO_FLAGS);
    hide Acceptable;
    hide Encode;
    hide EncodeAuth;
    hide Decide;
    hide LexLess;
    hide Fields;
    hide Update.PreProcess;
    hide Update.Process;
    hide Invariant;
    var st := PreProcess(State([], false));
    FirstBoot();
    SetupAccepts(m, st, u, t, message, item);
    EnrolmentEffect(m, st, u, Encode(item), t);
  }

  lemma EnrolmentEffect(m: Platform, st: State, u: Var, esl: Blob, t: EfiTime)
    requires Invariant(st) && st.setup && u.key in {PK_KEY, KEK_KEY, DB_KEY, DBX_KEY} && esl != []
    requires Decide(m, st.setup, u, st.bank, Store(st.bank)) == Accept(esl, t)
    ensures var (rc, after) := Process(m, st, [u]);
            && rc == OPAL_SUCCESS
            && Find(after.bank, u.key).Some? && after.bank[Find(after.bank, u.key).value].data == esl
            && (after.setup <==> u.key != PK_KEY)
  {
    assert Find(st.bank, u.key).Some? && Find(st.bank, PK_KEY).Some? && Held(st.bank, PK) == [];
    hide Decide;
    AcceptedIsInstalled(m, st, u, esl, t);
    RunKeepsInvariant(m, st, [u]);
    var after := Process(m, st, [u]).1;
    SameKeysSameFind(st.bank, after.bank, PK_KEY);
    hide Update.Process;
    hide Find;
    hide Replaced;
    hide SameKeys;
    PkIsOnlyChangedByPk(st.bank, u, esl, t, after.bank);
  }

  /** In setup mode nobody is asked for a signature. */
  lemma SetupAccepts(m: Platform, st: State, u: Var, t: EfiTime, message: bytes, item: Item)
    requires st.setup && HasTs(st.bank) && Store(st.bank) == Zeros(TS_SIZE)
    requires u.key in {PK_KEY, KEK_KEY, DB_KEY, DBX_KEY} && Acceptable(m, u.key, item.sigType, item.data)
    requires AUTH_HEADER + |message| + |Encode(item)| <= INT_MAX && LexLess(Fields(Zeros(TIME_SIZE)), Fields(t))
    requires u.data == EncodeAuth(t, message, Encode(item))
    ensures Decide(m, st.setup, u, st.bank, Store(st.bank)) == Accept(Encode(item), t)
  {
    hide Encode;
    hide EncodeAuth;
    hide Acceptable;
    hide CheckTimestamp;
    hide LexLess;
    hide Fields;
    hide CheckResult;
    hide DescriptorSize;
    hide NewValue;
    hide TimeOf;
    StoredKeys();
    EncodedAuth(t, message, Encode(item));
    EncodedItemPasses(m, u.key, item);
    ZeroSlot(SlotOf(u.key).value);
    CheckIsLaterThan(u.key, t, Store(st.bank));
    hide Slot;
    hide SlotOf;
    hide Zeros;
  }

  lemma ZeroSlot(k: nat)
    requires k < 4
    ensures Slot(Zeros(TS_SIZE), k) == Zeros(TIME_SIZE)
  {
  }

  lemma FirstBoot()
    ensures var st := PreProcess(State([], false));
            Invariant(st) && st.setup && HasTs(st.bank) && Store(st.bank) == Zeros(TS_SIZE)
  {
    PreProcessEstablishes(State([], false));
  }

  lemma PkIsOnlyChangedByPk(bank: seq<Var>, u: Var, data: Blob, t: EfiTime, next: seq<Var>)
    requires HasTs(bank) && Replaced(bank, u, data, t, next) && Find(bank, PK_KEY).Some? && Find(next, PK_KEY) == Find(bank, PK_KEY)
    ensures u.key != PK_KEY ==> Held(next, PK) == Held(bank, PK)
    ensures u.key == PK_KEY ==> Held(next, PK) == data
  {
    StoredKeys();
  }

  /** Without PK a run over an accepted update fails and yet stores it: on a bank of db and TS alone, an update of db. */
  lemma MissingPkIsStored(m: Platform, t: EfiTime, message: bytes, item: Item)
    requires Acceptable(m, DB_KEY, item.sigType, item.data)
    requires AUTH_HEADER + |message| + |Encode(item)| <= INT_MAX && LexLess(Fields(Zeros(TIME_SIZE)), Fields(t))
    ensures var st, u := State([EMPTY_DB, ZERO_TS], true), Var(DB_KEY, EncodeAuth(t, message, Encode(item)), NO_FLAGS);
            HasTs(st.bank) && Process(m, st, [u]).0 == OPAL_INTERNAL_ERROR && Process(m, st, [u]).1.bank != st.bank
  {
    var st, u := State([EMPTY_DB, ZERO_TS], true), Var(DB_KEY, EncodeAuth(t, message, Encode(item)), NO_FLAGS);
    WithoutPk();
    SetupAccepts(m, st, u, t, message, item);
    hide Acceptable;
    hide Encode;
    hide EncodeAuth;
    hide Decide;
    hide Apply;
    SingleFold(m, st.setup, st.bank, u);
    RunIsAtomic(m, st, [u]);
    FailingRunKeepsBankExactly(m, st, [u]);
    hide Fold;
    FoldKeepsShape(m, st.setup, st.bank, [u]);
    SameKeysSameFind(st.bank, Fold(m, st.setup, st.bank, [u]).bank, PK_KEY);
  }

  lemma WithoutPk()
    ensures var bank := [EMPTY_DB, ZERO_TS];
            && HasTs(bank) && Store(bank) == Zeros(TS_SIZE) && Find(bank, DB_KEY) == Some(0) && Find(bank, PK_KEY).None?
  {
    var bank := [EMPTY_DB, ZERO_TS];
    StoredKeys();
    assert bank[1..] == [ZERO_TS] && [ZERO_TS][1..] == [];
  }
}
