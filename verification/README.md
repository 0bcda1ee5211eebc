# Secure variable updates: a verified model

This project models how secvarctl decides about updates of the secure variables PK, KEK, db and dbx, and how it
produces and reads the files involved, and proves what those decisions guarantee.

* **The update engine.** A queue of signed updates runs over a bank of variables: a working copy is made, each update
  is checked against the state its predecessors left, and the copy replaces the variables only if the whole queue
  passed. `Update` gives one update, a queue and a run as functions on values; `Engine`, `SecvarBank` and
  `IntrusiveList` are the same on heap objects (intrusive circular lists, variables with buffers that grow in place)
  and are proved to compute exactly those functions. `Acceptance` proves exactly which updates are accepted and what
  they leave in the variables; `Runs` proves atomicity, the invariant between runs, monotone timestamps over whole
  histories and the refusal of replays; `Trust` proves the chain of trust for any verification of messages;
  `VerifyCommand` puts validation, the engine and the submission of the files together.
* **The formats.** `Esl` (EFI_SIGNATURE_LIST, section 32.4.1 of UEFI 2.8), `EslListCheck`, `EslValidate` and
  `VerifySignature` (three different walks over chains of such lists), `Auth` (EFI_VARIABLE_AUTHENTICATION_2, section
  8.2.2 of UEFI 2.8, and the four computations of where the new value starts), `Timestamp`, `PreImage` (the bytes that
  are signed).
* **PKCS7.** `Der` defines the encoding of a SignedData message (sections 7, 9.1 and 9.2 of RFC 2315, lengths as in
  sections 8.1.3 and 10.1 of X.690). `Pkcs7Writer` is the generator, which writes backwards into a buffer that doubles
  on demand; `Pkcs7Parser` is the parser and the verification of a digest; `Pkcs7RoundTrip` proves that the parser
  reads back what the generator wrote.
* **Down to signatures.** `SignatureTrust` takes the chain of trust through the parser and the verification above to
  the signatures in a message, and gives the exact condition under which an accepted update is signed at all.
* **End to end.** `EndToEnd` proves that a file generated for a single list is accepted by the engine, with the
  parser and verifier above, and yields exactly that list.

Everything the program calls but does not contain (hashing, X.509, public keys, the validators of whole certificates
and messages) is a parameter: `Platform`, `Pkcs7Parser.Library` and `Pkcs7Writer.Signing` hold it as functions about
which nothing is assumed except what a lemma states. `dafny verify dfyconfig.toml` checks the whole project.

## What turned out to hold only under a condition

* A run whose queue passes leaves the variables unchanged on failure exactly when PK is present
  (`Runs.FailingRunKeepsBankExactly`); `EndToEnd.MissingPkIsStored` is an input without PK. After pre-processing PK is
  always present.
* `verify_signature` succeeding means that a held certificate passes the verification exactly on authority values of at
  least one list header (`VerifySignature.VerifyMeansPassing`); on shorter values it means only that the message parses
  (`VerifySignature.ShortAuthorityAcceptsAll`). Validation of the banks excludes such values in user mode.
* Passing the verification is not yet being signed. `mbedtls_pkcs7_signed_hash_verify` returning 0 means that some
  signature verifies exactly for messages with signers (`Pkcs7Parser.ZeroMeansSomeSignature`), and the parser accepts a
  message without any. Such a message passes for every certificate and digest (`SignatureTrust.UnsignedMessagePasses`),
  and a well-formed update that carries it is accepted in user mode though nobody signed it
  (`SignatureTrust.UnsignedUpdateIsAccepted`). An accepted update that counts a list is signed by a key its authorities
  hold exactly when its message has a signer, which can be tested before the update is submitted
  (`SignatureTrust.AcceptedIsSignedExactly`, `ChainOfSignatures` and `VerifiedQueueIsSigned`).
* When no authority holds data, the engine accepts exactly the values in which it counts no list
  (`Update.TryAuthoritiesExact`).
* The engine's format check reads only the first list of a value (`EslListCheck.OnlyFirstListIsRead`). A chain of
  well-formed lists therefore passes exactly under an arithmetic condition on its first list's size and its length
  (`EslListCheck.ChainCheckExact`): equally long lists always pass (`EslListCheck.EqualSizesPass`), and a second list
  28 bytes longer than the first is always refused (`EslListCheck.LongerSecondIsRefused`).
* `authToESL` undoes `toAuth` exactly for non-empty messages (`Auth.ExtractionOfEncoded`).

## Model

| member | source | states |
|---|---|---|
| IntrusiveList.ListHead.Init | external/skiboot/include/list.h:142-146 | an initialised head is a valid list of no entries |
| IntrusiveList.ListHead.IsEmpty | external/skiboot/include/list.h:235-239 | true exactly for the list of no entries |
| IntrusiveList.ListHead.Add | external/skiboot/include/list.h:160-167 | keeps the cycle invariant and prepends to the sequence of entries |
| IntrusiveList.ListHead.AddTail | external/skiboot/include/list.h:217-224 | keeps the cycle invariant and appends |
| IntrusiveList.ListHead.AddBefore | external/skiboot/include/list.h:177-187 | inserts exactly in front of the given entry |
| IntrusiveList.ListHead.AddAfter | external/skiboot/include/list.h:196-206 | inserts exactly behind the given entry |
| IntrusiveList.ListHead.Del | external/skiboot/include/list.h:270-281 | removes exactly that entry and leaves the removed node's own links alone |
| IntrusiveList.ListHead.Pop | external/skiboot/include/list.h:358-367 | returns and removes the first entry, or reports the empty list |
| IntrusiveList.ListHead.ForEach | external/skiboot/include/list.h:477-481 | visits every entry once, in order, and terminates |
| IntrusiveList.ListHead.DeleteEach | external/skiboot/include/list.h:499-506 | deleting while traversing visits every entry once, in order, terminates, and empties the list |
| SecvarBank.Secvar.constructor | external/skiboot/secvar_util.c:45-70 | for any sizes, a variable with zeroed key and a fresh zeroed buffer of the requested size |
| SecvarBank.Secvar.Realloc | external/skiboot/secvar_util.c:98-114 | capacity reaches the request, the value stays, and only a request beyond the held size replaces the buffer |
| SecvarBank.Secvar.Store | external/skiboot/edk2-compat-process.c:42-57 | growing, shrinking or emptying in place leaves exactly the new value at the front of a large enough buffer |
| SecvarBank.NewSecvar | external/skiboot/secvar_util.c:72-96 | a fresh variable with its own buffer equal to key, data and flags; none for a key of bad length |
| SecvarBank.Bank.FindVar | external/skiboot/secvar_util.c:126-139 | the first variable with exactly this key, or none |
| SecvarBank.Bank.Length | external/skiboot/secvar_util.c:152-161 | the number of variables |
| SecvarBank.Bank.AddTail | external/skiboot/include/list.h:217-224 | appends a variable to the bank's contents |
| SecvarBank.Bank.Clear | external/skiboot/secvar_util.c:17-28 | empties the bank |
| SecvarBank.Bank.CopyFrom | external/skiboot/secvar_util.c:30-43 | appends equal variables made only of fresh objects, so that no later write to either bank reaches the other |
| SecvarBank.Bank.UpdateVariable | external/skiboot/edk2-compat-process.c:33-61 | the variable of that key takes value and flags in place, every other keeps its buffer and value; a missing one is an error that changes nothing |
| SecvarBank.Bank.StoreTime | external/skiboot/edk2-compat-process.c:379-394 | writes one slot of the TS variable in the buffer it already has |
| SecvarBank.FlagsFor | external/skiboot/edk2-compat-process.c:50-58 | volatile exactly when the value is empty; PK becomes protected; other bits stay |
| Bytes.LowestIsLeast | external/skiboot/edk2-compat-process.c:98-126 | a 32-bit field is stored low byte first |
| Keys.StoredKeys | external/skiboot/edk2-compat-process.c:360-377 | the stored keys are told apart by name and select the slots 0 to 3; TS has none |
| Timestamp.UnpackIsPositional | external/skiboot/edk2-compat-process.c:396-411 | the OR of shifted bytes is the positional value and fits 64 bits |
| Timestamp.UnpackIsLexicographic | external/skiboot/edk2-compat-process.c:396-411 | packed values are ordered exactly like (year, month, day, hour, minute, second, pad1) and equal only for equal fields |
| Timestamp.CheckIsLaterThan | external/skiboot/edk2-compat-process.c:413-437 | an update's time passes exactly if it is lexicographically later than the stored one |
| Timestamp.CheckIsStrictTotalOrder | external/skiboot/edk2-compat-process.c:413-437 | on valid times with pad1 zero, which time may follow which is irreflexive, asymmetric, transitive and total on different readings |
| Timestamp.SetSlotReads | external/skiboot/edk2-compat-process.c:360-394 | storing one variable's time changes that slot only |
| Timestamp.SlotsInOrder | external/skiboot/edk2-compat-process.c:360-377 | the times stand in the order PK, KEK, db, dbx, 16 bytes each |
| Timestamp.TimeByFields | backends/edk2-compat/edk2-svc-validate.c:655-688 | the position of each field, the year low byte first, and a time is valid exactly if year, month, day, hour, minute and second are in their ranges |
| Timestamp.UpdateTimestamp | external/skiboot/edk2-compat-process.c:379-394 | overwrites one slot of the buffer in place and nothing beyond it; unknown names are refused |
| Timestamp.ValidateTs | backends/edk2-compat/edk2-svc-validate.c:621-653 | success exactly for 64 bytes of four times in range |
| Esl.EncodedHeader | backends/edk2-compat/edk2-svc-generate.c:662-703 | the header fields of a generated list read back, whatever follows it |
| Esl.HeaderReads | external/skiboot/edk2-compat-process.c:98-126 | the four fields of any list header, whatever follows it |
| Esl.ListLayout | backends/edk2-compat/edk2-svc-generate.c:662-703 | a generated list position by position |
| Esl.ExtractsPayload | external/skiboot/edk2-compat-process.c:128-167 | with any signature header, the payload behind header and owner, exactly if the bytes left cover both |
| Esl.ToEsl | backends/edk2-compat/edk2-svc-generate.c:662-703 | the buffer filled in place is the encoding of one signature with a zero owner |
| Esl.EncodedCert | external/skiboot/edk2-compat-process.c:128-167 | the engine extracts exactly the payload of a generated list |
| EslListCheck.ValidateEslList | external/skiboot/edk2-compat-process.c:277-357 | the loop, which terminates, computes the count or code of the function CheckResult |
| EslListCheck.CheckExact | external/skiboot/edk2-compat-process.c:277-357 | for every value: passes exactly under conditions on the first list, with count (n - 28) / s + 1; below 28 bytes with count 0 |
| EslListCheck.AcceptedPkIsOneList | external/skiboot/edk2-compat-process.c:340-357 | an accepted non-empty PK value has fewer than 28 bytes beyond its first list |
| EslListCheck.EncodedItemPasses | external/skiboot/edk2-compat-process.c:277-357 | a single generated list of the right kind passes with count 1 |
| EslListCheck.SingleListExact | external/skiboot/edk2-compat-process.c:310-331 | a single generated list counts 1 exactly if, for dbx, the digest has the length of its type, or, for any other variable, it is a certificate that parses; otherwise it is refused |
| EslListCheck.OnlyFirstListIsRead | external/skiboot/edk2-compat-process.c:291-327 | values that differ only behind the first list, in equally many bytes, get the same verdict |
| EslListCheck.ChainCheckExact | external/skiboot/edk2-compat-process.c:277-357 | exactly which chains of generated lists pass, and with which count |
| EslListCheck.EqualSizesPass | external/skiboot/edk2-compat-process.c:277-357 | a chain of equally long lists passes and each list is counted |
| EslListCheck.LongerSecondIsRefused | external/skiboot/edk2-compat-process.c:291-327 | two well-formed lists of which the second is 28 bytes longer are refused |
| EslValidate.ValidateEsl | backends/edk2-compat/edk2-svc-validate.c:331-367 | the loop computes the verdict, the payloads seen and the bytes covered of the recursive walk |
| EslValidate.WalkOfEncoded | backends/edk2-compat/edk2-svc-validate.c:331-448 | on any number of generated lists the walk visits each once, in order, extracts exactly the payloads and covers the whole buffer |
| EslValidate.SingularExact | backends/edk2-compat/edk2-svc-validate.c:369-448 | a single list passes exactly if its sizes, kind and payload are valid; the 28 header bytes are not part of the size comparison |
| EslValidate.FirstListDecides | backends/edk2-compat/edk2-svc-validate.c:331-367 | a value passes exactly if it starts with a valid list, whatever follows; else the code is that of its first list |
| EslValidate.ValidatedIsLong | backends/edk2-compat/edk2-svc-validate.c:369-400 | an accepted value is at least one header long |
| VerifySignature.Verify | external/skiboot/edk2-compat-process.c:497-629 | the loop, which terminates, computes the code of the recursive walk |
| VerifySignature.WalkFindsFirstPassing | external/skiboot/edk2-compat-process.c:525-615 | the walk succeeds exactly if the certificate of some reached list passes the verification and every earlier list is usable but does not pass |
| VerifySignature.VerifyMeansPassing | external/skiboot/edk2-compat-process.c:497-629 | on values of at least 28 bytes success is exactly: the message parses and a first passing list exists |
| VerifySignature.ShortAuthorityAcceptsAll | external/skiboot/edk2-compat-process.c:525-532 | on shorter values success is exactly: the message parses |
| VerifySignature.ReachedOfEncoded | external/skiboot/edk2-compat-process.c:527-615 | on generated lists the walk reaches each once and in order |
| VerifySignature.ChainRefuses | external/skiboot/edk2-compat-process.c:527-615 | a chain of parsing certificates of which none passes is answered with OPAL_PERMISSION |
| VerifySignature.ChainVerifies | external/skiboot/edk2-compat-process.c:497-629 | a chain of parsing certificates accepts a message exactly if one of them verifies it |
| Auth.GetAuthDescriptor2 | external/skiboot/edk2-compat-process.c:185-215 | the size or code, and a copy of exactly the descriptor when it lies in the buffer |
| Auth.ValidateAuth | backends/edk2-compat/edk2-svc-validate.c:176-267 | the verdict of the function AuthResult, on every buffer |
| Auth.AuthToEsl | backends/edk2-compat/edk2-svc-generate.c:714-752 | on every file, also one too short for a length field, extracts what that field alone determines or returns one of three codes; files of 40 bytes and fewer are always refused |
| Auth.ToAuth | backends/edk2-compat/edk2-svc-generate.c:1006-1030 | header, message and value copied at a moving offset give the encoded file |
| Auth.EncodedAuth | external/skiboot/edk2-compat-process.c:185-215 | the engine splits a generated file into exactly its time, message and value |
| Auth.FileLayout | backends/edk2-compat/edk2-svc-generate.c:1006-1030 | a generated file position by position |
| Auth.SplitsExactly | external/skiboot/edk2-compat-process.c:185-215 | which files the engine splits, and into which bytes |
| Auth.ValidatedExactly | backends/edk2-compat/edk2-svc-validate.c:176-267 | the tool validates exactly the files with a valid message of the PKCS7 type inside the file, followed by nothing or a valid value |
| Auth.GeneratedIsValidExactly | backends/edk2-compat/edk2-svc-validate.c:176-267 | a generated file is valid exactly if its message is not empty and valid and its value is empty or valid |
| Auth.ExtractsExactly | backends/edk2-compat/edk2-svc-generate.c:714-752 | which files the value can be extracted from, and the code for each of the others |
| Auth.WrappedLengthIsRefused | external/skiboot/edk2-compat-process.c:169-203 | a length field below 24 wraps and is refused by engine and validator |
| Auth.OneSplitPoint | backends/edk2-compat/edk2-svc-validate.c:176-267 | on every validated buffer, engine, validator, extractor and length field agree on the split, which lies in bounds, and the message has the PKCS7 type and is valid |
| Auth.ExtractionOfEncoded | backends/edk2-compat/edk2-svc-generate.c:714-752 | extracting from a generated file gives the value back exactly when the message is not empty |
| PreImage.CharToWchar | external/skiboot/edk2-compat-process.c:64-79 | each character followed by a zero byte |
| PreImage.GetHashToVerify | external/skiboot/edk2-compat-process.c:637-736 | the streamed digest is the hash of the signed bytes; names without a vendor have none |
| PreImage.GetPreHash | backends/edk2-compat/edk2-svc-generate.c:880-939 | the buffer filled part by part holds exactly the signed bytes |
| PreImage.BothSidesAgree | backends/edk2-compat/edk2-svc-generate.c:880-939 | for every variable, time and value the signer hashes the same bytes as the verifier |
| PreImage.Layout | external/skiboot/edk2-compat-process.c:637-736 | the signed bytes position by position: wide name, the vendor GUID of its kind, attributes 0x27, time, value |
| PreImage.SignedBytesInjective | external/skiboot/edk2-compat-process.c:637-736 | no two different (variable, time, value) triples are signed as the same bytes |
| Update.TryAuthoritiesExact | external/skiboot/edk2-compat-process.c:802-846 | the loop succeeds exactly if an authority holding data verifies the message, or none holds data and the count is 0 |
| Update.StepEffect | external/skiboot/edk2-compat.c:160-202 | an accepted update changes its own variable and its own time and nothing else |
| Update.FoldAppend | external/skiboot/edk2-compat.c:160-217 | a queue is processed like its first part followed by its second |
| Update.FoldKeepsShape | external/skiboot/edk2-compat.c:160-217 | a queue keeps the variables, their keys and their order |
| Acceptance.DecideExact | external/skiboot/edk2-compat-process.c:746-854 | an update is accepted exactly if the file splits, the name is known, the time is later, the format check passes, and setup mode holds or PK (for db and dbx also KEK) vouches or none of them holds data and no list is counted |
| Acceptance.StepExact | external/skiboot/edk2-compat.c:160-202 | a round succeeds exactly if the update is accepted and its variable is there |
| Acceptance.RefusalCodes | external/skiboot/edk2-compat-process.c:746-812 | the code of a refusal for a short file, an unknown name, a time that is not later, and a bad format |
| Acceptance.AcceptedIsWellFormed | external/skiboot/edk2-compat-process.c:802-806 | in either mode an accepted value passed the format check; for PK it has fewer than 28 bytes beyond its first list |
| Acceptance.PassedQueueIsWellFormed | external/skiboot/edk2-compat.c:160-217 | so has every value of a queue that passes |
| Acceptance.TwoPkListsAreRefused | external/skiboot/edk2-compat-process.c:340-357 | a PK value of two lists is refused in either mode |
| Acceptance.FlagsAfterStep | external/skiboot/edk2-compat-process.c:50-58 | after an accepted update its variable is volatile exactly if emptied, protected exactly if it was or is PK, and otherwise flagged as before |
| Acceptance.QueueLeaves | external/skiboot/edk2-compat.c:160-217 | after a queue that passes every variable holds the value of its last update with the flags that follow from it, and is untouched if there is none |
| Acceptance.RunLeaves | external/skiboot/edk2-compat.c:107-252 | the same for a run that returns 0; any other run, with PK present, leaves every variable as it was |
| Engine.TryEachAuthority | external/skiboot/edk2-compat-process.c:823-847 | on the heap bank, the code of the function TryAuthorities |
| Engine.ProcessUpdate | external/skiboot/edk2-compat-process.c:746-854 | on the heap bank, exactly the decision, new value and time of the function Decide |
| Engine.ApplyOne | external/skiboot/edk2-compat.c:160-202 | one round on the working copy is exactly one Step; the TS variable keeps its buffer |
| Engine.Edk2Compat.PreProcess | external/skiboot/edk2-compat.c:37-105 | variables and mode are exactly those of the function PreProcess |
| Engine.Edk2Compat.RunQueue | external/skiboot/edk2-compat.c:160-217 | the loop is exactly Fold on the working copy; variables, queue and the TS buffer stay as they were |
| Engine.Edk2Compat.RunAndCommit | external/skiboot/edk2-compat.c:160-226 | the variables become the fold's result if all passed and stay as they were otherwise; the working copy ends empty |
| Engine.Edk2Compat.Process | external/skiboot/edk2-compat.c:107-252 | return code, variables and mode are exactly those of the function Process; the two early returns (no update, no TS) change nothing; otherwise queue and working copy end empty |
| Runs.QueuePassesExactly | external/skiboot/edk2-compat.c:160-217 | a queue passes exactly if each update is accepted against the state its predecessors left |
| Runs.RunIsAtomic | external/skiboot/edk2-compat.c:219-251 | 0 exactly if there are updates, all pass and PK is there; the variables are the fold's result or unchanged |
| Runs.FailingRunKeepsBankExactly | external/skiboot/edk2-compat.c:219-251 | of runs whose queue passes, a failing one leaves the variables unchanged exactly if PK is present |
| Runs.PreProcessEstablishes | external/skiboot/edk2-compat.c:37-105 | the five variables are there once each, TS has 64 bytes, the mode follows PK, and what was there is kept |
| Runs.MissingAreAdded | external/skiboot/edk2-compat.c:37-105 | a missing variable is added empty and volatile, PK also protected, TS as 64 zero bytes without flags |
| Runs.PreProcessIsIdempotent | external/skiboot/edk2-compat.c:37-105 | doing it again changes nothing |
| Runs.RunKeepsInvariant | external/skiboot/edk2-compat.c:107-252 | every run keeps that invariant and the variables' keys and order |
| Runs.QueueStamps | external/skiboot/edk2-compat-process.c:379-437 | over an accepted queue each time ends as that of its variable's last update, and every update is later than what was stored before |
| Runs.QueueIsIncreasing | external/skiboot/edk2-compat-process.c:413-437 | accepted updates of one variable have strictly increasing times |
| Runs.HistoryIsMonotone | external/skiboot/edk2-compat.c:107-252 | over any sequence of runs in either mode no stored time decreases |
| Runs.HistoryEndsAtLastAccepted | external/skiboot/edk2-compat.c:107-252 | after any history each stored time is that of the last accepted update of its variable |
| Runs.StaleQueueIsRefused | external/skiboot/edk2-compat.c:160-251 | a queue holding an update no later than the stored time fails and changes nothing |
| Runs.NoReplay | external/skiboot/edk2-compat.c:107-252 | once accepted, an update makes every later queue that holds it fail as a whole and change nothing |
| Trust.ValidatedUpdatesAreShaped | backends/edk2-compat/edk2-svc-verify.c:355-369 | validated updates split and carry an empty or long enough value |
| Trust.ValidatedBankIsShaped | backends/edk2-compat/edk2-svc-verify.c:371-383 | validated variables with PK present start the engine in user mode with every value empty or at least 28 bytes |
| Trust.QueueKeepsShaped | external/skiboot/edk2-compat.c:160-202 | a queue of validated updates keeps every value empty or at least 28 bytes |
| Trust.AcceptedIsVerified | external/skiboot/edk2-compat-process.c:746-854 | the message of an update accepted in user mode passes the verification with a certificate an allowed authority then holds, or the update empties its variable while none holds anything |
| Trust.ChainOfTrust | external/skiboot/edk2-compat-process.c:82-96 | for any verification, over whole queues after validation: the message of every accepted update with a positive count passes it with a certificate held at that step by PK (for PK, KEK) or KEK or PK (for db, dbx), and every held value stays empty or at least 28 bytes |
| Trust.PassedQueueIsTrusted | external/skiboot/edk2-compat.c:160-217 | every update of a queue that passes is trusted in the state its predecessors left |
| SignatureTrust.AcceptedIsSignedExactly | external/extraMbedtls/pkcs7.c:583-620 | with this parser and verification, an update accepted in user mode is signed by a key an allowed authority then holds exactly if its message has a signer and an authority holds data, which a positive count implies |
| SignatureTrust.ChainOfSignatures | external/skiboot/edk2-compat.c:160-217 | the same at every step of a queue after validation |
| SignatureTrust.VerifiedQueueIsSigned | backends/edk2-compat/edk2-svc-verify.c:212-267 | when the command succeeds with PK present and no key twice, every update that counts a list is signed by a key its authorities then hold exactly if its message has a signer |
| SignatureTrust.UnsignedMessagePasses | external/extraMbedtls/pkcs7.c:358-364 | a message with an empty set of signers parses, and the verification returns 0 for every certificate and digest |
| SignatureTrust.UnsignedUpdateIsAccepted | external/extraMbedtls/pkcs7.c:609-619 | an otherwise well-formed later update with such a message is accepted in user mode, and no key of an authority signed it |
| VerifyCommand.ValidateBanks | backends/edk2-compat/edk2-svc-verify.c:348-402 | the two loops return the first failing verdict, without looking at the variables if PK is missing |
| Trust.BanksExact | backends/edk2-compat/edk2-svc-verify.c:348-402 | banks are valid exactly if every update is and, with PK present, every variable is |
| VerifyCommand.SubmitsInOrder | backends/edk2-compat/edk2-svc-verify.c:512-526 | what is written is a prefix of the queue in its order, and all of it exactly on success |
| VerifyCommand.FailureCode | backends/edk2-compat/edk2-svc-verify.c:512-526 | the code of a failed submission is that of the write behind those that were made |
| VerifyCommand.CommitUpdateBank | backends/edk2-compat/edk2-svc-verify.c:512-526 | writes in order up to the first failure; an empty queue is an error |
| VerifyCommand.CommandIsTrusted | backends/edk2-compat/edk2-svc-verify.c:212-267 | the command's verdict is success only for queues each of whose updates is trusted where it stands |
| VerifyCommand.Verify | backends/edk2-compat/edk2-svc-verify.c:212-267 | succeeds exactly if banks are valid, the whole queue is accepted and, on request, all is written; nothing is written before that, what is written are the original updates in order, and a queue it accepts with PK present is trusted update by update |
| Der.LengthDigits | external/extraMbedtls/generate-pkcs7.c:238-292 | the shortest definite length octets of every size below 4 GiB |
| Der.SignerExample | external/extraMbedtls/generate-pkcs7.c:374-473 | the encoding of one signer, byte by byte |
| Der.MessageExample | external/extraMbedtls/generate-pkcs7.c:475-592 | the encoding of a whole message, byte by byte |
| Pkcs7Writer.SignedExactly | external/extraMbedtls/generate-pkcs7.c:374-473 | a message can be generated exactly if there is a signer and every certificate parses and is for RSA and, unless signatures are given, every key signs the data |
| Pkcs7Writer.SignersAre | external/extraMbedtls/generate-pkcs7.c:380-430 | issuer and serial of a signer are those of its certificate; its signature is the one its key makes over the data, or the one given |
| Pkcs7Writer.Buffer.AllocateMoreMemory | external/extraMbedtls/generate-pkcs7.c:203-222 | doubles the buffer, keeps the written suffix and its count, and leaves zeros below it |
| Pkcs7Writer.Buffer.WriteAlgorithm | external/extraMbedtls/generate-pkcs7.c:255-259 | an AlgorithmIdentifier in front of the written bytes, or not enough room |
| Pkcs7Writer.Buffer.SetData | external/extraMbedtls/generate-pkcs7.c:238-297 | for every kind and size of data the retry loop ends with exactly the data's encoding in front of what was written; from the first growth all below is zero |
| Pkcs7Writer.Buffer.SetHeader | external/extraMbedtls/generate-pkcs7.c:475-489 | a header whose length is the growth of the written bytes covers exactly what the step has written |
| Pkcs7Writer.Buffer.SetAlgorithmIds | external/extraMbedtls/generate-pkcs7.c:374-401 | both algorithm identifiers and the signature, or failure for a certificate that is not RSA or a failed signature |
| Pkcs7Writer.Buffer.SetSignerCertData | external/extraMbedtls/generate-pkcs7.c:403-430 | version, issuer and serial, algorithms and signature of one signer |
| Pkcs7Writer.Buffer.SetSignerDataForEachSigner | external/extraMbedtls/generate-pkcs7.c:432-473 | for any number of signers, their SignerInfos last first; none is an error |
| Pkcs7Writer.Buffer.SetSignersData | external/extraMbedtls/generate-pkcs7.c:475-489 | the SET covers exactly the signers |
| Pkcs7Writer.Buffer.SetSignerCertRaw | external/extraMbedtls/generate-pkcs7.c:491-511 | the certificates last first, and the [0] value covers exactly them |
| Pkcs7Writer.Buffer.SetSignedDataOid | external/extraMbedtls/generate-pkcs7.c:513-523 | the content type in front |
| Pkcs7Writer.Buffer.SetAlgoId | external/extraMbedtls/generate-pkcs7.c:525-544 | the SET covers exactly the one digest algorithm |
| Pkcs7Writer.Buffer.SetVersion | external/extraMbedtls/generate-pkcs7.c:546-558 | version 1 in front |
| Pkcs7Writer.Buffer.SetSignedData | external/extraMbedtls/generate-pkcs7.c:560-573 | the SEQUENCE covers exactly the signed data |
| Pkcs7Writer.Buffer.SetPkcs7Oid | external/extraMbedtls/generate-pkcs7.c:575-592 | the buffer ends with exactly the DER ContentInfo, and the only failures are missing signers, unusable certificates and failed signatures |
| Pkcs7Writer.GetLeadingWhitespace | generic.c:32-39 | the number of zero bytes at the front |
| Pkcs7Writer.ToPkcs7 | external/extraMbedtls/generate-pkcs7.c:645-674 | trimming removes exactly the unwritten front: the result is the DER ContentInfo |
| Pkcs7Parser.GetSignersInfoSet | external/extraMbedtls/pkcs7.c:345-411 | the loop over the set computes the recursive parse, errors included |
| Pkcs7Parser.GetCertificates | external/extraMbedtls/pkcs7.c:211-239 | the loop computes the chain of certificates that follow each other to the end, errors included |
| Pkcs7Parser.GetSignedData | external/extraMbedtls/pkcs7.c:425-490 | the parse of signed data, with optional certificates and the moved cursor after a failed try |
| Pkcs7Parser.ParseDer | external/extraMbedtls/pkcs7.c:492-549 | the type of signed data exactly if the message parses; an error code otherwise, which is never that type |
| Pkcs7Parser.SignedHashVerify | external/extraMbedtls/pkcs7.c:583-620 | 0 exactly if the digest algorithm is known and there are no signers or some signature verifies; else the last code |
| Pkcs7Parser.ZeroMeansSomeSignature | external/extraMbedtls/pkcs7.c:583-620 | "0 means that some signature verifies" exactly for messages with signers or an unknown algorithm |
| Pkcs7RoundTrip.TlvReadsBack | external/extraMbedtls/pkcs7.c:110-120 | the header of an encoded value is read and leaves the cursor at exactly its content |
| Pkcs7RoundTrip.SignerReadsBack | external/extraMbedtls/pkcs7.c:273-340 | an encoded SignerInfo gives back version, issuer, serial, algorithms and signature |
| Pkcs7RoundTrip.SignersReadBack | external/extraMbedtls/pkcs7.c:345-411 | all signers come back in written order and the last ends exactly at the end of the set |
| Pkcs7RoundTrip.CertificatesReadBack | external/extraMbedtls/pkcs7.c:211-239 | all certificates come back in written order and the last ends exactly at the end of the buffer |
| Pkcs7RoundTrip.MessageReadsBack | external/extraMbedtls/pkcs7.c:492-549 | generate then parse: version 1, digest algorithm, certificates and signers of every generated message are recovered |
| Pkcs7RoundTrip.NoCertificatesReadBack | external/extraMbedtls/pkcs7.c:471-487 | signed data without certificates parses, with its signers |
| Pkcs7RoundTrip.BareDataReadsBack | external/extraMbedtls/pkcs7.c:507-539 | a message without identifier is judged by its signed data |
| Pkcs7RoundTrip.OtherTypeIsRefused | external/extraMbedtls/pkcs7.c:511-526 | a message of another type is refused, with one code for the known types and another for the rest |
| Pkcs7RoundTrip.OtherVersionIsRefused | external/extraMbedtls/pkcs7.c:444-447 | signed data of another version than 1 is refused |
| Pkcs7RoundTrip.OtherContentIsRefused | external/extraMbedtls/pkcs7.c:456-467 | signed data with an unknown digest algorithm, or around another content type than data, is refused |
| EndToEnd.WellFormedIsAccepted | external/skiboot/edk2-compat-process.c:746-854 | in either mode, a generated file with a later time whose message a certificate of an authority's chain verifies is accepted with exactly its list |
| EndToEnd.FirstCertificateDecides | external/skiboot/edk2-compat-process.c:442-490 | a generated message is usable exactly if the certificate that stands first in it can be described |
| EndToEnd.GeneratedMessageHolds | external/extraMbedtls/generate-pkcs7.c:374-473 | what is parsed back of a generated message, in terms of its inputs: certificates and signers last first, with issuer, serial, algorithms, and the signature the key made over the data or the one given |
| EndToEnd.GeneratedMessageVerifies | crypto/crypto-mbedtls.c:67-70 | a generated message parses back and verifies with the certificate of any signer whose signature, as its key made it or as it was given, verifies |
| EndToEnd.GenerateAuth | backends/edk2-compat/edk2-svc-generate.c:951-1037 | the file is the encoding of time, message over the signed bytes, and list; it fails exactly for other names and messages that cannot be signed |
| EndToEnd.GeneratedUpdateIsAccepted | backends/edk2-compat/edk2-svc-generate.c:992-1037 | the generated file is accepted by the engine using this parser and verifier, and gives back exactly the original list, if the signature made over the signed bytes verifies with a held certificate |
| EndToEnd.FirstBootTakesWellFormedUpdate | external/skiboot/edk2-compat.c:37-252 | a system without variables starts in setup mode and installs any well-formed update with a non-zero time; enrolling PK, and only that, ends setup mode |
| EndToEnd.MissingPkIsStored | external/skiboot/edk2-compat.c:219-236 | on variables without PK, an update that passes is stored although the run fails |
| EndToEnd.AcceptedIsInstalled | external/skiboot/edk2-compat.c:107-252 | a run over one accepted update returns 0, installs its value, time and flags, and leaves everything else alone |

## Left out

- Argument parsing, usage texts, file and sysfs access, PEM conversion, printing and logging: presentation and I/O; `VerifyCommand` keeps the writes as a log.
- `setupBanks` and `getCurrentVars`: they read files; the banks they fill are the inputs of `VerifyCommand.Verify`.
- X.509 parsing, hashing, RSA, and the whole-message and whole-certificate validators: parameters. A certificate that parses and one that can also be described are one predicate (`certOk`).
- The library's ASN.1 readers and writers are modelled as specified; mbedtls itself is not part of this model. The library's certificate reader is assumed to take up part of its buffer and not all of nothing (`Pkcs7Parser.Lawful`), without which the certificate loop need not end.
- Allocation succeeds, except for sizes that no allocation can satisfy (a wrapped signature size, a descriptor beyond `int`), which give the code's out-of-memory errors. Freeing is not modelled.
- Buffers of 2 GiB and more: sizes fit a C `int`.
- A read past the end of a buffer returns an arbitrary byte (`Platform.beyond`) instead of being undefined.
- Keys are stored with their terminator; a key without one is compared as if it ended there.
- The host is little-endian. `unpack_timestamp` applies a 32-bit byte swap to the 16-bit year, which on such a host does nothing.
- The OpenSSL variant of message generation, the commented-out hardware key hash, `edk2_compat_post_process` (does nothing) and `edk2_compat_validate`.
- `printReadable` and the other readers of `edk2-svc-read.c` apart from `get_esl_cert` and `getSigType`; no claim is made about their loops.
- Engine.Edk2Compat.Process: requires TS, if present, to have 64 bytes; the code reads and writes its slots without looking at the size.
- VerifyCommand.Verify: requires that of banks without PK, whose variables are not validated; with PK validation establishes it.
- Pkcs7Writer.ToPkcs7: starts with certificates and keys in memory; the message must fit an `int`.
- Pkcs7RoundTrip.MessageReadsBack: assumes that the library finds the end of each certificate whatever follows it and reads each issuer as a name.
- EndToEnd.GeneratedUpdateIsAccepted: assumes that the signature one signer's key makes over the signed bytes, or the one given for it, verifies with that signer's certificate; this is the library's business.
- Keys and data of a variable are values (`seq`) except for its data buffer, which is an array that is grown and overwritten in place.
- The single steps of the parser are functions from a cursor to a value or error and the next cursor; its loops and the functions around them are methods that advance the cursor.
