# Taler wallet core logic, modelled in Dafny

The GNU Taler wallet rests on a handful of small cores whose correctness cannot be seen by reading one
function. This project models eight of them and proves what they are for:

1. **The in-memory IndexedDB backend** of the wallet's database (W3C Indexed Database API 2.0, sections 6.1
   and 6.7). The database is a state machine over values (`IdbRecords`, `IdbDeletion`, `IdbTransactions`,
   `IdbDumps`), with every index proved to be what its store's records say over every run, transactions
   proved atomic and exclusive, and a dump proved to restore what was committed. `IdbModes` says what a transaction
   of each mode can change until it ends. `MemoryStore` and
   `MemoryBackend` are the classes whose fields are updated in place; each method is proved to take exactly
   the step of the state machine. `Cursor` has the paging functions with their loops, proved to cut pages
   from one ordered listing, and the cursor class.
2. **Punycode** (RFC 3492, sections 3 and 6): encoder and decoder are separate loops that are proved to stay in
   lockstep, which gives the exact set of strings that survive a round trip.
3. **Forgettable contract terms and canonical JSON** (RFC 8785): forgetting parts of a contract never changes its hash,
   and the hash commits to all of the terms, forgotten or not.
4. **Bech32 and segwit addresses** (BIP 173, BIP 350): the checksum over GF(2), detection of errors in the data and in the
   human-readable part, and regrouping of bits.
5. **Secret boxes and hashes**: Poly1305 on ten limbs of 13 bits (RFC 8439, section 2.5), the in-place secret
   box, SHA-256 and SHA-512 given their data in pieces (FIPS 180-4), HMAC (RFC 2104) and HKDF (RFC 5869). Two inputs
   with the same digest, code or derived key lead to a collision of a compression function, which is constructed.
6. **Anastasis**: a backup splits a secret over policies of challenges, and any run of the recovery reducer that
   finishes has the secret back, and solving the challenges of any one policy does finish. It is built on the secret box
   and the key derivation of item 5.
7. **Policy suggestion**: bounded enumeration in lexicographic order, and the best assignment of providers.
8. **Amounts**: saturating fixed-point arithmetic, and decimal printing and parsing.

Code that loops over variables or updates objects is a method or a class here, tied to a specification function
or relation; what the program promises is then proved about that specification.

## What the proofs found out

- `decode(encode(s))` of Punycode is `s` exactly if no insertion state of the decoder exceeds 2^31 - 1. The
  encoder guards only the difference, so 1930 letters followed by U+0080 and U+10F66D are encoded to a string that
  the decoder refuses (`PunycodeLimit.EncodedButNotDecoded`). The encoder hands an outdated count to the bias
  adaptation for a repeated code point; this is harmless (`PunycodeProofs.StaleCountIsHarmless`).
- `deleteRecord` with an open upper bound stops only at a record with exactly that key
  (`IdbDeletion.RemovesTheRange` has the exact condition), and it throws if there is no record to start from.
- After `importDump` the contents of indexes are only in their modified version. If the first transaction after an
  import is rolled back, all indexes become empty (`IdbDumps.RollbackAfterImport`); a commit first makes the
  database sound (`IdbDumps.CommitAfterImport`).
- A key generator of 0 inside a transaction counts as absent until the commit (`IdbTransactions.CommitPublishes`).
- `validateForgettable` looks for the digest of a forgotten member under the wrong name (line 198); the model does the same.
- The contract hash does not notice an empty list of forgettable members (`ContractHash.EmptyListIsNotHashed`); it commits to
  everything else (`ContractHash.HashCommits`).
- The freeze step of Poly1305 lets a 16-bit limb wrap around; the bits concerned are masked off afterwards.
- Policy suggestion gives up a selection whose first possible assignment is not among the 10000 that are evaluated. With
  six methods that only the last of eleven providers offers, nothing is suggested (`PolicySuggestion.NothingSuggested`).
- `Amounts.sub` of amounts that are not normal can saturate although the difference is zero (`Amounts.NotNormal`);
  `Amounts.SubtractsRightlyExactly` has the exact condition. `maxFractionalDigits` is negative from nine final zeros on.
- The recovery reducer lets a user go on to the challenges without a recovery document; going on from there
  throws (`AnastasisRecovery.NoVersionSelected`).
- The incremental SHA-512 object does not keep its state from before `finish`, so `finish` gives the digest only once.

## Model

| member | source | states |
|---|---|---|
| Utf16.Ucs2Decode | packages/taler-util/src/punycode.ts:126-149 | the loop turns UTF-16 into exactly the code points, with surrogates that are not a pair kept as they are |
| Utf16.CodePointsRoundTrip | packages/taler-util/src/punycode.ts:126-165 | joining the code points of any string gives the string back |
| Punycode.Adapt | packages/taler-util/src/punycode.ts:205-217 | the bias loop computes the adapted bias of RFC 3492, section 6.1 |
| Punycode.ReadVariableLength | packages/taler-util/src/punycode.ts:254-283 | the inner loop of the decoder reads one generalized integer, with each of its four errors |
| Punycode.Decode | packages/taler-util/src/punycode.ts:226-308 | the decoder's loops compute the decoded code points or the error |
| Punycode.EmitDelta | packages/taler-util/src/punycode.ts:376-388 | the digit loop writes the generalized integer of a difference |
| Punycode.Encode | packages/taler-util/src/punycode.ts:317-405 | the encoder's loops compute the encoding or the overflow error |
| PunycodeProofs.DigitRoundTrip | packages/taler-util/src/punycode.ts:170-198 | every digit is read back as itself, and none is the delimiter |
| PunycodeProofs.BiasBound | packages/taler-util/src/punycode.ts:205-217 | the adapted bias is between 0 and 213 |
| PunycodeProofs.StaleCountIsHarmless | packages/taler-util/src/punycode.ts:390-396 | adapting with the outdated count gives the same bias as with the actual one |
| PunycodeProofs.WeightGuard | packages/taler-util/src/punycode.ts:268-282 | the decoder's guard on the weight never fires where the digits so far fit |
| PunycodeProofs.ReadsBack | packages/taler-util/src/punycode.ts:254-283 | a generalized integer is read back, added to the state, exactly if the sum fits into 31 bits, else overflow |
| PunycodeProofs.InsertedByDelta | packages/taler-util/src/punycode.ts:285-306 | in lockstep the decoder inserts the encoder's next code point at its place |
| PunycodeProofs.PassDecodes | packages/taler-util/src/punycode.ts:362-399 | over one pass of the encoder the decoder stays in lockstep (n, i and bias), or overflows exactly at the first insertion that does not fit |
| PunycodeProofs.LoopDecodes | packages/taler-util/src/punycode.ts:342-404 | over the whole run of the encoder the decoder ends with the input, or with overflow exactly if an insertion does not fit |
| PunycodeProofs.DecodeAfterEncode | packages/taler-util/src/punycode.ts:226-405 | what is encoded decodes to the original string if every insertion fits into 31 bits, and to overflow otherwise |
| PunycodeProofs.RoundTripExactly | packages/taler-util/src/punycode.ts:226-405 | encoding succeeds and decodes to the string if and only if every insertion fits |
| PunycodeProofs.ShortStringsRoundTrip | packages/taler-util/src/punycode.ts:226-405 | strings with at most about 1926 code points are encoded without overflow and come back |
| PunycodeLimit.EncodedButNotDecoded | packages/taler-util/src/punycode.ts:256-300 | a concrete string is encoded and its encoding is refused with overflow |
| PunycodeSamples.Sample | packages/taler-util/src/punycode.ts:226-405 | a sample string of RFC 3492, section 7.1, is encoded as the standard says and decoded again, which pins the parameters |
| PunycodeSamples.Mixed | packages/taler-util/src/punycode.ts:226-405 | "bücher" is encoded as "bcher-kva" and decoded again |
| PunycodeSamples.DigitAlphabet | packages/taler-util/src/punycode.ts:170-198 | which characters are which digits, in either case |
| PunycodeSamples.DistinctRound | packages/taler-util/src/punycode.ts:350-404 | a round of the encoder for a code point that occurs once writes one integer, with difference and bias given by counts |
| Keys.TotalOrder | packages/idb-bridge/src/MemoryBackend.ts:202-230 | the assumed comparison of keys is a strict total order |
| KeyRanges.IncludesMeaning | packages/idb-bridge/src/bridge-idb.ts:1482-1503 | a range includes a key exactly if the key lies past both bounds |
| KeyRanges.BoundRefused | packages/idb-bridge/src/bridge-idb.ts:1444-1462 | a bound is refused exactly if nothing could lie between its ends |
| IdbRecords.InsertedAgrees | packages/idb-bridge/src/MemoryBackend.ts:1389-1446 | an entry is added so that the index is that of the new records, or refused exactly for an invalid key or a taken key of a unique index |
| IdbRecords.DeletedAgrees | packages/idb-bridge/src/MemoryBackend.ts:1066-1103 | an entry is removed so that the index is that of the remaining records |
| IdbRecords.StoreKeepsAgreement | packages/idb-bridge/src/MemoryBackend.ts:1220-1387 | storing a record keeps every index agreeing with the records, and what is stored, or the error, is exactly determined |
| IdbRecords.StoredExactly | packages/idb-bridge/src/MemoryBackend.ts:1242-1345 | a successful store writes the record that was asked for or made, under the key that is given back, and advances the key generator unless it updates |
| IdbRecords.ClearKeepsAgreement | packages/idb-bridge/src/MemoryBackend.ts:905-942 | clearing leaves no records and indexes that agree |
| IdbRecords.BuildAgrees | packages/idb-bridge/src/MemoryBackend.ts:841-903 | an index built record by record is that of the records, or fails exactly if it cannot be unique |
| IdbDeletion.RemovedMeaning | packages/idb-bridge/src/MemoryBackend.ts:985-1062 | the loop removes exactly the records from the lower bound up to the first one that stops it |
| IdbDeletion.RemovesTheRange | packages/idb-bridge/src/MemoryBackend.ts:985-1062 | exactly the records in the range are removed if and only if an open upper bound is absent, met by a record, or above all records |
| IdbDeletion.OpenUpperOvershoots | packages/idb-bridge/src/MemoryBackend.ts:1020-1029 | a concrete open range from which a record beyond it is removed |
| IdbDeletion.NoStart | packages/idb-bridge/src/MemoryBackend.ts:988-1005 | there is no record to start from exactly if the lower bound is not closed and no record lies past it |
| IdbDeletion.DeleteKeepsAgreement | packages/idb-bridge/src/MemoryBackend.ts:944-1064 | a deletion succeeds exactly under its two conditions, and then records and indexes are those without the removed records; a failed one leaves the records |
| IdbTransactions.StepInv | packages/idb-bridge/src/MemoryBackend.ts:462-602 | every step keeps at most one running transaction, schemas that match their stores, and working stores without changes while nothing writes |
| IdbTransactions.StepAgreement | packages/idb-bridge/src/MemoryBackend.ts:692-1103 | every successful step keeps all indexes of the working stores agreeing with their records, and those of the committed ones |
| IdbTransactions.RunsAgree | packages/idb-bridge/src/MemoryBackend.ts:504-1538 | over every run that rolls back failed transactions, committed indexes agree, and working ones do until an operation fails |
| IdbTransactions.AllRunsAgree | packages/idb-bridge/src/MemoryBackend.ts:462-1538 | the same for every such run from the empty database |
| IdbTransactions.StepCommitted | packages/idb-bridge/src/MemoryBackend.ts:504-1538 | only a commit changes what is committed |
| IdbTransactions.RollbackRestores | packages/idb-bridge/src/MemoryBackend.ts:1448-1486 | after any actions a rollback gives back the records, indexes, key generators and schema seen before the transaction |
| IdbTransactions.CommitPublishes | packages/idb-bridge/src/MemoryBackend.ts:1488-1538 | a commit publishes exactly what reads inside the transaction saw, key generators included unless one was 0 |
| IdbTransactions.Exclusive | packages/idb-bridge/src/MemoryBackend.ts:504-583 | while a transaction runs, no other begins |
| IdbModes.RunKeepsMode | packages/idb-bridge/src/MemoryBackend.ts:504-583 | until a transaction ends, its level and scope stay whatever anyone does |
| IdbModes.ReadOnly | packages/idb-bridge/src/MemoryBackend.ts:529-533 | in a transaction begun read-only, until it ends, every operation on records or schema fails and all that is visible stays |
| IdbModes.ReadWrite | packages/idb-bridge/src/MemoryBackend.ts:1220-1387 | in a transaction begun for writing, until it ends, storing into a store of its scope has the outcome and the visible records of storing the record, and fails outside |
| IdbModes.WritesInScope | packages/idb-bridge/src/MemoryBackend.ts:905-1064 | records can be written exactly by the transaction itself in the stores of its scope, and removing and clearing are visible as they should be |
| IdbModes.OnlyItself | packages/idb-bridge/src/MemoryBackend.ts:692-903 | a transaction that is no version change never changes the schema, and no other number can write |
| IdbModes.VersionChanges | packages/idb-bridge/src/MemoryBackend.ts:552-583 | a version change has the new version, changes nothing else that is visible, and alone can change the schema until it ends |
| IdbModes.StoreCreated | packages/idb-bridge/src/MemoryBackend.ts:799-839 | a new store is empty, has its properties and no indexes, and all else stays |
| IdbModes.StoreDeleted | packages/idb-bridge/src/MemoryBackend.ts:725-759 | a deleted store is gone, and nothing else |
| IdbModes.IndexCreated | packages/idb-bridge/src/MemoryBackend.ts:841-903 | an index is created exactly if the records keep it unique where it should be, and then it is listed and holds what the records say |
| IdbModes.IndexDeleted | packages/idb-bridge/src/MemoryBackend.ts:692-723 | a deleted index is neither listed nor visible, and nothing else changes |
| IdbDumps.DumpRoundTrip | packages/idb-bridge/src/MemoryBackend.ts:297-426 | importing the dump of any sound database succeeds with the same committed records, indexes, key generators and schema |
| IdbDumps.StoreRoundTrip | packages/idb-bridge/src/MemoryBackend.ts:297-379 | the indexes rebuilt from the dumped records equal those maintained record by record |
| IdbDumps.CommitAfterImport | packages/idb-bridge/src/MemoryBackend.ts:297-379 | a commit as the first end of a transaction makes an imported database satisfy all invariants |
| IdbDumps.RollbackAfterImport | packages/idb-bridge/src/MemoryBackend.ts:346-366 | a rollback as the first end keeps the records, and the indexes agree if and only if they had no entries |
| Cursor.FurthestMeaning | packages/idb-bridge/src/MemoryBackend.ts:202-230 | the furthest of two keys is the bound for being behind neither |
| Cursor.GetObjectStoreRecords | packages/idb-bridge/src/MemoryBackend.ts:1735-1836 | the loop returns the first records, up to the limit, of the ordered listing of the range strictly behind the last position |
| Cursor.AlignIndex | packages/idb-bridge/src/MemoryBackend.ts:1591-1670 | the entry and the position the index walk starts from are the first ones of the listing |
| Cursor.GetIndexRecords | packages/idb-bridge/src/MemoryBackend.ts:1541-1733 | for any range, direction, uniqueness and limit the loops return the first positions of the ordered listing behind the last position |
| Cursor.NextIndexPage | packages/idb-bridge/src/MemoryBackend.ts:1541-1733 | asking again behind the first position of a listing gives the rest of that listing |
| Cursor.NextStorePage | packages/idb-bridge/src/MemoryBackend.ts:1735-1836 | the same for an object store |
| CursorMeaning.IndexListingMeaning | packages/idb-bridge/src/MemoryBackend.ts:1541-1733 | the listing of an index has exactly the entries in range and still to come, each once, index keys in the direction and primary keys ascending |
| CursorMeaning.StoreListingMeaning | packages/idb-bridge/src/MemoryBackend.ts:1735-1836 | the listing of a store has exactly the keys in range behind the last position and not before the key to advance to, in order |
| Cursor.BridgeIDBCursor.Iterate | packages/idb-bridge/src/bridge-idb.ts:200-264 | each iteration moves to the first position still to be visited and leaves the rest, or reports the end and stays |
| Cursor.BridgeIDBCursor.Advance | packages/idb-bridge/src/bridge-idb.ts:344-388 | advancing moves over exactly as many positions, or past the end |
| MemoryStore.Index.InsertIntoIndex | packages/idb-bridge/src/MemoryBackend.ts:1389-1446 | the index object takes exactly the specified insertion or stays unchanged with the error |
| MemoryStore.Index.DeleteFromIndex | packages/idb-bridge/src/MemoryBackend.ts:1066-1103 | the index object takes exactly the specified removal |
| MemoryStore.StoreIntoEntry | packages/idb-bridge/src/MemoryBackend.ts:1238-1387 | store and index objects end in the specified state with the specified result, through all loops and early errors |
| MemoryStore.DeleteFromEntry | packages/idb-bridge/src/MemoryBackend.ts:965-1064 | the deletion loop over records and indexes ends in the specified state |
| MemoryStore.ClearEntry | packages/idb-bridge/src/MemoryBackend.ts:905-942 | the clearing loop ends in the specified state |
| MemoryStore.BuildIndex | packages/idb-bridge/src/MemoryBackend.ts:884-902 | filling a new index in key order ends in the specified state |
| MemoryStore.SettleEntry | packages/idb-bridge/src/MemoryBackend.ts:1509-1533 | the modified versions of a store and its indexes become the original ones, and its indexes committed ones |
| MemoryStore.RestoreStore | packages/idb-bridge/src/MemoryBackend.ts:1467-1483 | the modified versions of a store and its listed indexes are dropped |
| MemoryBackend.MemoryBackend.ConnectDatabase | packages/idb-bridge/src/MemoryBackend.ts:462-502 | the object takes the connect step with a cookie of its own |
| MemoryBackend.MemoryBackend.BeginTransaction | packages/idb-bridge/src/MemoryBackend.ts:504-550 | the object takes the begin step: it starts with the level asked for and the stores as its scope, waits or fails |
| MemoryBackend.MemoryBackend.EnterVersionChange | packages/idb-bridge/src/MemoryBackend.ts:552-583 | the object takes the step to a version change |
| MemoryBackend.MemoryBackend.Close | packages/idb-bridge/src/MemoryBackend.ts:585-602 | the object takes the close step |
| MemoryBackend.MemoryBackend.StoreRecord | packages/idb-bridge/src/MemoryBackend.ts:1220-1387 | the object takes the store step and returns its key, through shared mutable stores and indexes; committed versions stay |
| MemoryBackend.MemoryBackend.DeleteRecord | packages/idb-bridge/src/MemoryBackend.ts:944-1064 | the object takes the deletion step |
| MemoryBackend.MemoryBackend.ClearObjectStore | packages/idb-bridge/src/MemoryBackend.ts:905-942 | the object takes the clearing step |
| MemoryBackend.MemoryBackend.CreateObjectStore | packages/idb-bridge/src/MemoryBackend.ts:799-839 | the object takes the step that creates a store |
| MemoryBackend.MemoryBackend.DeleteObjectStore | packages/idb-bridge/src/MemoryBackend.ts:725-759 | the object takes the step that deletes a store |
| MemoryBackend.MemoryBackend.CreateIndex | packages/idb-bridge/src/MemoryBackend.ts:841-903 | the object takes the step that creates and fills an index |
| MemoryBackend.MemoryBackend.DeleteIndex | packages/idb-bridge/src/MemoryBackend.ts:692-723 | the object takes the step that deletes an index |
| MemoryBackend.MemoryBackend.Rollback | packages/idb-bridge/src/MemoryBackend.ts:1448-1486 | the object takes the rollback step over all stores and indexes |
| MemoryBackend.MemoryBackend.Commit | packages/idb-bridge/src/MemoryBackend.ts:1488-1538 | the object takes the commit step over all stores and indexes, and every connection sees the result |
| CanonicalJson.SortedNamesList | packages/taler-util/src/helpers.ts:75-79 | the sorted names are all names in increasing order of their code units |
| CanonicalJson.OneSortedList | packages/taler-util/src/helpers.ts:75-79 | there is only one such list |
| CanonicalJson.TextPrefix | packages/taler-util/src/helpers.ts:62-89 | a text can be told from what follows it: equal concatenations have equal trees and equal rests |
| CanonicalJson.Canonical | packages/taler-util/src/helpers.ts:62-89 | two trees have the same text if and only if they are equal up to the order of members |
| CanonicalJson.Print | packages/taler-util/src/helpers.ts:62-89 | the recursive printing with its loops gives that text, whatever the order of members |
| JsonSamples.PrecedesMeaning | packages/taler-util/src/helpers.ts:79-79 | names are ordered by the first code unit that differs, a shorter name before a longer one |
| JsonSamples.TextSample | packages/taler-util/src/helpers.ts:62-89 | a sample object with nested values, escapes and two names has the text of RFC 8785 |
| ContractTermsCode.ForgetOne | packages/taler-util/src/contract-terms.ts:43-64 | one member is replaced by its salted digest in place, or the step throws exactly if a part is missing |
| ContractTermsCode.ForgetAllImpl | packages/taler-util/src/contract-terms.ts:31-73 | the recursion over the fresh copy gives exactly the forgotten tree, or throws exactly if some object cannot be forgotten |
| ContractTerms.ForgottenInSteps | packages/taler-util/src/contract-terms.ts:31-90 | forgetting by one predicate and then by another is forgetting by either, and throws exactly then |
| ContractTerms.HashUnchanged | packages/taler-util/src/contract-terms.ts:80-230 | forgetting changes neither the scrubbed tree nor the contract hash |
| ContractTerms.OrderDoesNotMatter | packages/taler-util/src/contract-terms.ts:80-90 | two forgettings in either order give the same tree |
| ContractTerms.HashIdentifies | packages/taler-util/src/contract-terms.ts:225-230 | under a collision-free hash two contracts have the same hash if and only if they scrub to the same tree |
| ContractTerms.ValidityKept | packages/taler-util/src/contract-terms.ts:126-209 | valid terms can be forgotten without exception and stay valid |
| ContractHash.ScrubDetermines | packages/taler-util/src/contract-terms.ts:43-63 | under digests without collisions, signed terms are determined by what scrubbing leaves of them, empty lists of forgettable members aside |
| ContractHash.HashCommits | packages/taler-util/src/contract-terms.ts:88-230 | whatever was forgotten since in two contracts, their hashes agree if and only if the terms as signed are the same, empty lists aside |
| ContractHash.HashDetermines | packages/taler-util/src/contract-terms.ts:225-230 | of terms without empty lists the hashes agree if and only if the terms are equal |
| ContractHash.EmptyListIsNotHashed | packages/taler-util/src/contract-terms.ts:61-63 | two different contracts, with an empty list and without it, have the same hash |
| ContractHash.LeftExactly | packages/taler-util/src/contract-terms.ts:31-73 | something is left at a path if and only if it was there and no marked member on the way is chosen by the predicate |
| Bech32.Polymod | packages/taler-util/src/bech32.ts:45-57 | the nested loops compute the checksum polynomial of BIP 173 |
| Bech32.StepInjective | packages/taler-util/src/bech32.ts:48-55 | one step of the checksum is injective on 30-bit states |
| Bech32.WindowDetected | packages/taler-util/src/bech32.ts:45-57 | two sequences that differ only within six neighbouring symbols never have the same checksum |
| Bech32.ChecksumVerifies | packages/taler-util/src/bech32.ts:72-84 | the checksum appended to any data verifies |
| Bech32Codec.ExpandHrp | packages/taler-util/src/bech32.ts:59-70 | the loops expand the human-readable part as in BIP 173 |
| Bech32Codec.CreateChecksum | packages/taler-util/src/bech32.ts:76-84 | the loop computes the six symbols of the checksum |
| Bech32Codec.Encode | packages/taler-util/src/bech32.ts:86-93 | the loop computes the encoded string |
| Bech32Codec.Decode | packages/taler-util/src/bech32.ts:95-131 | the loops compute the decoded parts or refuse the string |
| Bech32Codec.DecodeEncoded | packages/taler-util/src/bech32.ts:86-131 | what is encoded is decoded again if and only if the human-readable part is plain and the string has at most 90 characters |
| Bech32Codec.OtherEncodingRefused | packages/taler-util/src/bech32.ts:95-131 | a string of one of Bech32 and Bech32m is refused as the other |
| Bech32Codec.SubstitutionDetected | packages/taler-util/src/bech32.ts:95-131 | a valid string with one character of its data part replaced is refused |
| Bech32Codec.BurstDetected | packages/taler-util/src/bech32.ts:95-131 | two valid strings that differ within six neighbouring characters of the data part differ only in case |
| Bech32Protection.HrpWindow | packages/taler-util/src/bech32.ts:59-74 | two human-readable parts that differ in the low bits of at most six neighbouring characters do not both verify before the same data |
| Bech32Protection.HrpBurstDetected | packages/taler-util/src/bech32.ts:95-131 | a valid string with at most six neighbouring letters of its human-readable part replaced by other letters is refused |
| Bech32Samples.SampleBech32 | packages/taler-util/src/bech32.ts:45-131 | a test vector of BIP 173 is decoded, which pins generator, expansion and constant |
| Bech32Samples.SampleBech32m | packages/taler-util/src/bech32.ts:45-131 | the same for BIP 350 |
| Bech32Samples.Alphabet | packages/taler-util/src/bech32.ts:21-21 | the character of each symbol, and back, as in the table of BIP 173 |
| Segwit.ConvertBits | packages/taler-util/src/segwit_addr.ts:28-58 | the loops over the unmasked 32-bit accumulator compute the regrouped values |
| Segwit.RegroupMeaning | packages/taler-util/src/segwit_addr.ts:34-47 | groups and remaining bits stand for the same number as the input although the accumulator wraps around |
| Segwit.BytesRoundTrip | packages/taler-util/src/segwit_addr.ts:28-58 | regrouping bytes with padding to five bits and back without gives the bytes |
| Segwit.FivesRoundTrip | packages/taler-util/src/segwit_addr.ts:28-58 | whatever is accepted on the way back to bytes is the padded regrouping of them |
| Segwit.OutOfRangeIsEmpty | packages/taler-util/src/segwit_addr.ts:38-41 | values out of range give nothing |
| Segwit.DecodeAddress | packages/taler-util/src/segwit_addr.ts:60-89 | decoding computes the address or refuses it |
| Segwit.EncodeAddress | packages/taler-util/src/segwit_addr.ts:91-105 | encoding computes the address string or the empty one |
| Segwit.AddressRoundTrip | packages/taler-util/src/segwit_addr.ts:60-105 | encoding is nonempty if and only if the part is plain, version and program admissible and the length at most 90, and then decoding gives version and program back |
| Segwit.AddressCanonical | packages/taler-util/src/segwit_addr.ts:60-105 | every accepted address is, in lower case, the encoding of what it decodes to |
| Bech32Protection.VersionDecides | packages/taler-util/src/segwit_addr.ts:60-89 | an accepted address has the checksum of BIP 173 exactly for version 0 and that of BIP 350 exactly for the others |
| Bech32Protection.NetworksApart | packages/taler-util/src/segwit_addr.ts:60-89 | what stands behind the prefix of one network never makes an address with another prefix of the same length up to six |
| Bech32Protection.MainAndTestApart | packages/taler-util/src/segwit_addr.ts:60-105 | what is written for "bc" is never read under "tb", with its own prefix or the other one, and the other way |
| Bitcoin.GenerateFakeSegwitAddress | packages/taler-util/src/bitcoin.ts:39-82 | two addresses of version 0 for the marked halves of a key, in the network's form, or the error |
| Bitcoin.FakeAddressesCarryKey | packages/taler-util/src/bitcoin.ts:39-82 | both addresses are valid, and from them in either order the key can be put together again |
| Bitcoin.SameNetwork | packages/taler-util/src/bitcoin.ts:50-82 | the generated addresses are on the network of the given address and are seen as such |
| PolyMath.ProductIsProduct | packages/taler-util/src/nacl-fast.ts:777-954 | the limbs of the unrolled products, with the wrapped ones taken five times, stand for the product modulo 2^130 - 5 |
| PolyKey.KeyLimbsAreClamped | packages/taler-util/src/nacl-fast.ts:698-728 | the masks of the key limbs are the clamping of RFC 8439 |
| PolyBlocks.Multiply | packages/taler-util/src/nacl-fast.ts:777-954 | with every accumulator below 2^32 the carried limbs are reduced and stand for h times r |
| PolyBlocks.AddBlocks | packages/taler-util/src/nacl-fast.ts:730-969 | over all blocks, reduced limbs are kept and h stands for (h + block + high bit) times r, block by block |
| PolyFinish.CarryAll | packages/taler-util/src/nacl-fast.ts:983-996 | the carries give proper limbs for the same number modulo 2^130 - 5 |
| PolyFinish.Freeze | packages/taler-util/src/nacl-fast.ts:998-1011 | the limbs chosen by the mask stand for the fully reduced number, despite the limb that wraps around |
| PolyFinish.Pack | packages/taler-util/src/nacl-fast.ts:1013-1021 | the 16-bit words stand for the number modulo 2^128 |
| PolyFinish.AddPad | packages/taler-util/src/nacl-fast.ts:1023-1028 | the pad is added modulo 2^128 |
| Poly1305.Authenticator.constructor | packages/taler-util/src/nacl-fast.ts:690-728 | the object starts with the key's limbs and nothing taken in |
| Poly1305.Authenticator.Blocks | packages/taler-util/src/nacl-fast.ts:730-969 | full blocks are taken into the limbs |
| Poly1305.Authenticator.Update | packages/taler-util/src/nacl-fast.ts:1048-1074 | whatever pieces are given, the object stands for their concatenation |
| Poly1305.Authenticator.Finish | packages/taler-util/src/nacl-fast.ts:971-1046 | the tag of RFC 8439 over everything given is written, and nothing around it |
| Secretbox.CryptoStreamSalsa20 | packages/taler-util/src/nacl-fast.ts:624-653 | the loop writes the key stream block by block with its 64-bit counter |
| Secretbox.CryptoStream | packages/taler-util/src/nacl-fast.ts:655-667 | the key stream under the derived key is written |
| Secretbox.CryptoOnetimeauth | packages/taler-util/src/nacl-fast.ts:1077-1089 | the tag under the one-time key is written at its place |
| Secretbox.CryptoSecretbox | packages/taler-util/src/nacl-fast.ts:1104-1117 | in the buffer that also supplies the one-time key, tag and masked message end up as the box, or -1 |
| Secretbox.Verify16 | packages/taler-util/src/nacl-fast.ts:58-78 | the comparison without branches is equality |
| Secretbox.CryptoSecretboxOpen | packages/taler-util/src/nacl-fast.ts:1119-1134 | the message is unmasked exactly if its tag is right, else -1 |
| Secretbox.MakeBox | packages/taler-util/src/nacl-fast.ts:2992-3005 | secretbox gives the box, or an error for a wrong size of key or nonce |
| Secretbox.OpenBox | packages/taler-util/src/nacl-fast.ts:3007-3021 | secretbox_open gives what the box opens to, or nothing, or the error |
| SecretboxSpec.OpensOnlyItsBox | packages/taler-util/src/nacl-fast.ts:1104-1134 | a box opens to a message if and only if it is the box of that message under the same key and nonce |
| SecretboxSpec.BlockInputParts | packages/taler-util/src/nacl-fast.ts:600-618 | the input of a block is the rest of the nonce and the 64-bit number of the block |
| SecretboxSpec.BlockInputsDiffer | packages/taler-util/src/nacl-fast.ts:607-612 | blocks have the same input if and only if nonce and number are the same |
| SecretboxSpec.StreamBlocksDiffer | packages/taler-util/src/nacl-fast.ts:624-667 | under an injective core, blocks of two streams are equal if and only if the streams have the same key and end of the nonce and the place is the same |
| SecretboxSpec.BoxBytes | packages/taler-util/src/nacl-fast.ts:1104-1117 | each message byte is under a stream byte of its own, behind those that are the key of the tag |
| HashSpec.FoldAppend | packages/taler-util/src/sha256.ts:32-127 | hashing full blocks of a concatenation is hashing one part and then the other |
| HashBlocks.TakeBlocks | packages/taler-util/src/sha256.ts:32-127 | the block loop takes all full blocks and returns the position behind them |
| HashBlocks.EndsPadded | packages/taler-util/src/sha256.ts:213-232 | bit, zeros and the two length words are the padding of FIPS 180-4, section 5.1 |
| HashConstants.InitialState256 | packages/taler-util/src/sha256.ts:149-158 | the initial words are the fractions of the square roots of the first eight primes |
| HashConstants.InitialState512 | packages/taler-util/src/nacl-fast.ts:2363-2381 | the same for the two halves of the words of SHA-512 |
| HashBinding.PaddingIsUnambiguous | packages/taler-util/src/sha256.ts:213-232 | padded messages are equal only for equal messages |
| HashBinding.Sha256Collision | packages/taler-util/src/sha256.ts:182-246 | from two messages below 2^61 bytes with one digest a collision of the compression function is found |
| StreamHash.HashSha256.Reset | packages/taler-util/src/sha256.ts:149-162 | the object stands for the empty message again |
| StreamHash.HashSha256.Clean | packages/taler-util/src/sha256.ts:165-173 | the buffer is zeroed and the object stands for the empty message |
| StreamHash.HashSha256.Update | packages/taler-util/src/sha256.ts:182-207 | whatever pieces are given, the object stands for their concatenation; after finish it throws and changes nothing |
| StreamHash.HashSha256.Finish | packages/taler-util/src/sha256.ts:212-246 | SHA-256 of everything given is written, the same on every call |
| StreamHash.HashSha256.RestoreState | packages/taler-util/src/sha256.ts:263-270 | a saved state stands for the blocks it was saved after |
| StreamHmac.HMAC.constructor | packages/taler-util/src/sha256.ts:286-314 | a key of any length is put in, with the two padded states saved |
| StreamHmac.HMAC.Reset | packages/taler-util/src/sha256.ts:319-323 | the object can be used again with the same key |
| StreamHmac.HMAC.Clean | packages/taler-util/src/sha256.ts:326-332 | nothing is left of the key |
| StreamHmac.HMAC.Update | packages/taler-util/src/sha256.ts:335-338 | pieces are put behind what was given; after finish it throws |
| StreamHmac.HMAC.Finish | packages/taler-util/src/sha256.ts:341-349 | HMAC-SHA256 of RFC 2104 over everything given is written, the same on every call and after any reuse |
| StreamHmac.OneShotSha256 | packages/taler-util/src/sha256.ts:360-365 | the one-shot function is SHA-256 |
| StreamHmac.OneShotHmac | packages/taler-util/src/sha256.ts:368-373 | the one-shot function is HMAC-SHA256 |
| CryptoHash.TakeBlocks512 | packages/taler-util/src/nacl-fast.ts:1884-2355 | the block loop over two arrays of half words takes all full blocks |
| CryptoHash.Hash | packages/taler-util/src/nacl-fast.ts:2357-2394 | crypto_hash is SHA-512 of the message, below 2^61 bytes |
| CryptoHash.HashState.Update | packages/taler-util/src/nacl-fast.ts:2428-2449 | whatever pieces are given, the object stands for their concatenation |
| CryptoHash.HashState.Finish | packages/taler-util/src/nacl-fast.ts:2451-2466 | SHA-512 of everything given, below 2^61 bytes |
| HashBinding.Sha512Collision | packages/taler-util/src/nacl-fast.ts:2357-2394 | the same for SHA-512 |
| Kdf.Hmac1 | packages/taler-util/src/kdf.ts:24-52 | the buffers make the HMAC of RFC 2104 for any hash, block size and key length |
| HashBinding.HmacCollision | packages/taler-util/src/kdf.ts:24-52 | from two keys of one length up to a block, or two messages, with the same code a collision of the hash is found |
| Kdf.Expand | packages/taler-util/src/kdf.ts:74-92 | the loop fills the output with the blocks of HKDF's expansion, with a counter of one byte |
| Kdf.Derive | packages/taler-util/src/kdf.ts:62-95 | the derived key is HKDF's, of the length asked for, with the defaults for salt and info |
| HashBinding.DerivedCollision | packages/taler-util/src/kdf.ts:62-95 | from two choices of secret, salt or info with the same derived key a collision of one of the compression functions is found |
| AnastasisCrypto.Encrypt | packages/anastasis-core/src/crypto.ts:196-219 | the code through key derivation and secret box gives nonce and box |
| AnastasisCrypto.Decrypt | packages/anastasis-core/src/crypto.ts:221-235 | the code gives what is decrypted, or throws |
| AnastasisCrypto.DecryptsExactly | packages/anastasis-core/src/crypto.ts:196-235 | something decrypts to a text if and only if it is an encryption of that text under the same seed and salt |
| AnastasisCrypto.Concat | packages/anastasis-core/src/crypto.ts:166-179 | the chunks are put one behind the other |
| AnastasisCrypto.EncryptCoreSecret | packages/anastasis-core/src/crypto.ts:293-335 | with each policy key the encrypted master key and core secret give the core secret |
| AnastasisBinding.PolicyKeyCollision | packages/anastasis-core/src/crypto.ts:181-194 | other shares, fewer, or in another order give the same policy key only with a collision of a compression function |
| AnastasisBinding.DerivedKeyCollision | packages/anastasis-core/src/crypto.ts:196-207 | the same for the key of an encryption under another seed, nonce or salt |
| AnastasisBackup.ReferenceIsUnique | packages/anastasis-core/src/index.ts:421-421 | the text that stands for a method at a provider stands for no other |
| AnastasisBackup.PreparePolicy | packages/anastasis-core/src/index.ts:414-442 | the loop over one policy draws challenges that are new and uses those that exist |
| AnastasisBackup.PrepareRecoveryData | packages/anastasis-core/src/index.ts:397-488 | for any policies whose methods and providers exist a backup is prepared: exactly the challenges used, an escrow method for each, and the secret for every policy under its shares |
| AnastasisBackup.SharedChallenges | packages/anastasis-core/src/index.ts:414-442 | two policies share a challenge exactly where they use the same method at the same provider |
| AnastasisBackup.PolicyRecovers | packages/anastasis-core/src/index.ts:853-888 | with genuine shares for its challenges any policy of a backup gives the core secret |
| AnastasisRecovery.TryRecoverSecret | packages/anastasis-core/src/index.ts:853-888 | the loops take the first policy that has all of its shares, or leave the state unmodified |
| AnastasisRecovery.PollChallenges | packages/anastasis-core/src/index.ts:893-921 | the loop goes through the feedback, ignores returned errors and stops at an exception |
| AnastasisRecovery.StepSound | packages/anastasis-core/src/index.ts:972-1070 | every action keeps that a finished recovery is earned |
| AnastasisRecovery.AlwaysEarned | packages/anastasis-core/src/index.ts:1766-1832 | over every run, whatever the servers reply, a finished recovery has a policy with all shares and the secret it gives |
| AnastasisRecovery.RunHonest | packages/anastasis-core/src/index.ts:972-1070 | over every run with providers that release what was uploaded, all recovered shares are genuine |
| AnastasisRecovery.UploadIsHonest | packages/anastasis-core/src/index.ts:1017-1027 | an uploaded share, released to the same user with the same answer, decrypts to itself |
| AnastasisRecovery.RecoversBackup | packages/anastasis-core/src/index.ts:397-1070 | over every such run of every prepared backup, a finished recovery has the secret that was backed up |
| AnastasisRecovery.NextFinishes | packages/anastasis-core/src/index.ts:1531-1547 | going on finishes with the secret if and only if some policy has all of its shares, and otherwise returns the error |
| AnastasisRecovery.NoVersionSelected | packages/anastasis-core/src/index.ts:1798-1808 | a run without a recovery document in which going on throws |
| AnastasisCompletion.ShareRecorded | packages/anastasis-core/src/index.ts:1016-1050 | a released body that decrypts is recorded as the share of its challenge, which is marked as solved, or recovery throws |
| AnastasisCompletion.OneSolved | packages/anastasis-core/src/index.ts:1072-1085 | selecting and solving a challenge with what was uploaded adds its share, and finishes with the secret if a policy is then solved |
| AnastasisCompletion.EveryPolicyRecovers | packages/anastasis-core/src/index.ts:397-1085 | for every prepared backup and every policy, selecting the version and solving all challenges of the policy ends with the secret |
| AnastasisCompletion.PollingSolves | packages/anastasis-core/src/index.ts:893-921 | polling solves a challenge by bank transfer in the same way |
| Enumeration.Enumerator.Sel | packages/anastasis-core/src/policy-suggestion.ts:193-209 | the backtracking over shared variables appends exactly the continuations of the prefix, up to the limit |
| Enumeration.EnumerateProviderMappings | packages/anastasis-core/src/policy-suggestion.ts:188-210 | the first mappings up to the limit |
| Enumeration.EnumerateMethodSelections | packages/anastasis-core/src/policy-suggestion.ts:221-243 | the first selections up to the limit |
| Enumeration.MappingsComplete | packages/anastasis-core/src/policy-suggestion.ts:188-210 | the mappings are all tuples of providers, in strict lexicographic order |
| Enumeration.SelectionsComplete | packages/anastasis-core/src/policy-suggestion.ts:221-243 | the selections are all increasing tuples of methods, in strict lexicographic order |
| Enumeration.MappingsByRank | packages/anastasis-core/src/policy-suggestion.ts:188-210 | there are m^n mappings, and each is at the place that its digits in base m say |
| PolicySuggestion.BestIsOptimal | packages/anastasis-core/src/policy-suggestion.ts:77-160 | the chosen mapping is possible, none is more diverse or equally diverse with less duplication, and it is the first such; there is none exactly if no mapping is possible |
| PolicySuggestion.BestInNumbers | packages/anastasis-core/src/policy-suggestion.ts:115-155 | every possible mapping has fewer different providers than the chosen one, or as many and more duplication, or the same of both and a later place |
| PolicySuggestion.AssignProviders | packages/anastasis-core/src/policy-suggestion.ts:65-168 | the loops over mappings, methods and existing policies compute that choice |
| PolicySuggestion.AssignedExactly | packages/anastasis-core/src/policy-suggestion.ts:65-168 | a selection gets a policy if and only if each method is offered and the mapping to first offers is within the first 10000 |
| PolicySuggestion.SuggestPolicies | packages/anastasis-core/src/policy-suggestion.ts:17-57 | the loop over selections gives the suggested policies, or throws without methods |
| PolicySuggestion.SuggestedExactly | packages/anastasis-core/src/policy-suggestion.ts:17-57 | exactly the selections within reach are suggested, in lexicographic order |
| PolicySuggestion.SuggestedUsable | packages/anastasis-core/src/policy-suggestion.ts:86-108 | every method of a suggested policy is at a provider that offers it |
| PolicySuggestion.AllSelectionsTried | packages/anastasis-core/src/policy-suggestion.ts:25-43 | all selections are tried if and only if there are at most nine methods |
| PolicySuggestion.NothingSuggested | packages/anastasis-core/src/policy-suggestion.ts:71-76 | a family of inputs with every method offered and nothing suggested |
| Amounts.Add | packages/taler-util/src/amounts.ts:164-203 | the loop adds from left to right, and saturates or fails at the first occasion |
| Amounts.AddedIsSum | packages/taler-util/src/amounts.ts:164-203 | in one currency it is the sum of all, clamped to the largest amount exactly if the sum is more |
| Amounts.AddedFails | packages/taler-util/src/amounts.ts:180-184 | it fails exactly if another currency comes before the sum is too large |
| Amounts.Sub | packages/taler-util/src/amounts.ts:212-242 | the loop subtracts from left to right with one borrowed unit at most |
| Amounts.SubtractedIsDifference | packages/taler-util/src/amounts.ts:212-242 | of normal amounts it is the exact difference, saturated exactly if that is negative |
| Amounts.SubtractsRightlyExactly | packages/taler-util/src/amounts.ts:223-239 | the exact condition on any two amounts for the subtraction to be right |
| Amounts.NotNormal | packages/taler-util/src/amounts.ts:223-239 | two equal amounts whose difference is saturated |
| Amounts.SubUndoesAdd | packages/taler-util/src/amounts.ts:164-242 | subtraction undoes an addition that is not saturated |
| Amounts.Cmp | packages/taler-util/src/amounts.ts:248-272 | the order of the totals, or an error exactly for different currencies |
| Amounts.Mult | packages/taler-util/src/amounts.ts:397-431 | double-and-add is the product, clamped exactly if the product is too large |
| Amounts.Divide | packages/taler-util/src/amounts.ts:288-301 | the total divided and rounded down, with normal amounts kept normal |
| AmountStrings.MatchesExactly | packages/taler-util/src/amounts.ts:318-322 | matching finds exactly the parts that are joined in the string |
| AmountStrings.StringifyValue | packages/taler-util/src/amounts.ts:465-484 | the digit loop prints value and fraction |
| AmountStrings.FractionRoundTrip | packages/taler-util/src/amounts.ts:470-480 | printed fraction digits stand for the fraction exactly |
| AmountStrings.ParsePrinted | packages/taler-util/src/amounts.ts:318-457 | parsing a printed amount gives its normal form in capital letters |
| AmountStrings.PrintedParses | packages/taler-util/src/amounts.ts:318-457 | a printed amount can be parsed if and only if its currency is a proper name and it is within the limit |
| AmountStrings.PrintingIsStable | packages/taler-util/src/amounts.ts:318-457 | printing what was parsed and parsing it again changes nothing |
| AmountStrings.MaxFractionalDigits | packages/taler-util/src/amounts.ts:491-506 | the loop counts eight less the zeros at the end of the fraction |
| AmountStrings.LeastDigits | packages/taler-util/src/amounts.ts:491-506 | that is the least number of digits that represents the fraction if and only if there are at most eight such zeros |
| AmountStrings.PrintedDigits | packages/taler-util/src/amounts.ts:465-506 | of a normal fraction as many digits are printed as maxFractionalDigits says |

## Left out

- IndexedDB: `renameIndex` and `renameObjectStore`; several index keys per record (multi-entry indexes); `advanceIndexKey`
  and `advancePrimaryKey` in indexes; `deleteDatabase` and several databases; connections that stay open across a version
  change; stored null values; events, tracing, statistics, and the `deleted` and `modifiedName` bookkeeping.
- IndexedDB: the B+tree is a map over totally ordered keys; the extraction of keys, the making of keys for stored values
  and the cloning of values are parameters. Waiting is the outcome Blocked.
- IndexedDB: `importDump` and `exportDump` are functions between databases and dumps; their effect on shared objects is not
  modelled. The loop of `deleteObjectStore` over indexes has no visible effect and is not there.
- Punycode: the mapping of whole domains (`toASCII`, `toUnicode`).
- Segwit: versions from 32 on, which are not symbols.
- Contract terms: arrays in place of the objects that list salts and digests, text in place of the latter, members to forget
  whose names begin with a dollar sign, names of members that objects inherit, numbers that are not integers, and
  `saltForgettable`. Key derivation and text encoding of digests are parameters there.
- SecretboxSpec.StreamBlocksDiffer: assumes that the Salsa20 core is injective; nothing is assumed of the HSalsa20 core.
- ContractHash.HashCommits: assumes that digests and hashes of different texts differ, and takes terms in which nothing is forgotten yet as what was signed.
- Salsa20 and HSalsa20 cores and the compression functions of the hashes are parameters; the scratch buffer of SHA-256 is not modelled.
- Secretbox.CryptoSecretbox: output and input buffers are different arrays, as they are in secretbox and secretbox_open.
- PolyBlocks.Multiply: the products, unrolled in the program, are loops over limbs here.
- CryptoHash.Hash: states nothing from 2^61 bytes on, where the length field has no room.
- Kdf.Derive: works on byte sequences; its two hashes are their specifications, to which the hash code is proved equal for messages below 2^61 bytes.
- Anastasis: text encoding of bytes, JSON and compression of documents, the derivation of users' identities (a parameter),
  payments, and what is uploaded and downloaded over HTTP, whose outcomes are parameters of actions. Invalid URLs and
  provider entries without salt are not modelled. Random values are parameters; their identifiers are distinct.
- AnastasisBackup.PrepareRecoveryData: escrow methods are listed in any order.
- AnastasisRecovery.PollChallenges: goes through any list of identifiers, not only through those of the feedback in their order.
- Policy suggestion: names of method types that objects inherit; costs beyond whether there is one.
- Amounts: numbers are integers, without the rounding of numbers above 2^53 on the way (as for the remainder of a division by more
  than about 9 * 10^7); amounts are parsed before they are added; `fromFloat`; letters outside ASCII in currency names; negative divisors.
- User interface, network code, codecs, logging and configuration: no logic to prove, or only easy members.
