# Qabel drop-message exchange: a Dafny model

This project models the message-exchange core of the Qabel Android client's
`LocalQabelService`, and the small `AppPreference` settings store beside it.
Everything is modelled as immutable values and pure functions, with Java's
exceptions returned as `Result` values. The model covers:

- **Contact directory** (`directory.dfy`, module `Directory`). It holds the
  persisted identities and the active-identity preference, plus one contact
  book per identity. `getContacts(identity)` creates a book the first time
  it is asked for one. Books are kept in persistence order.
- **Fan-out sender** (`delivery.dfy`, module `Delivery`). This is the loop
  of `sendDropMessage`: encode once, post the same bytes to every drop URL
  of the recipient, collect a `DropURL -> bool` map (true iff HTTP 200),
  then invoke the optional callback once.
- **Batch retrieval** (`retrieval.dfy`, module `Retrieval`). For each
  pulled blob it dispatches on the version byte, then tries to decode the
  blob against each identity in turn, with a spoof signal ending the
  trials. It then checks the sender against the shuffled contact list.
- **Service-level retrieval** (`polling.dfy`, module `Polling`).
  `retrieveDropMessages(URI)` and `retrieveDropMessages()` run over every
  drop URL of every identity, threading the directory store through.
- **Pending uploads** (`pending_uploads.dfy`, module `PendingUploads`).
  This is a map from path to a list of file names, with append and
  remove-first-match.
- **AppPreference** (`app_preference.dfy`, module `AppPreference`). It
  covers the token with its placeholder encryption, the last app-start
  version, and the update-question time window. Java `long` wrap-around
  is written out.
- `common.dfy` holds the shared types: `Option`, `Result`, the exception
  kinds, and Java's signed byte. `entities.dfy` holds the records.

Things the service calls but whose code is not part of this model are
parameters of the model. These are the envelope codec
(`BinaryDropMessageV0`), `disassembleMessage`, `registerSender`, the HTTP
calls, the `SecureRandom` shuffle and the document id parser.

### Behaviour of the code worth knowing

All line numbers refer to
`qabelbox/src/main/java/de/qabel/qabelbox/services/LocalQabelService.java`.

- `retrieveDropMessages(URI)` authenticates senders against the contacts of
  the **active** identity (`getContacts()`, line 245). It does not use the
  book of the identity that decoded the blob (lines 271-290).
- A `QblVersionMismatchException` on a version-0 blob is rethrown as a
  `RuntimeException` (lines 256-258). This aborts the whole retrieval.
- Nothing is deduplicated. The identity loop of `retrieveDropMessages()`
  (lines 226-231) pulls a drop URL once per identity that lists it
  (`Polling.SharedDropPulledTwice`). Inside one batch, every accepted blob
  adds its own message (line 283; `Retrieval.ProcessBlobsAppend`).
- `QblDropPayloadSizeException` comes from encoding. The encoding runs in
  the initialiser of the worker object (lines 187-188), in the caller's
  thread, before any post.
- A blob with no bytes makes `cipherMessage[0]` throw (line 250). The model
  returns `IndexOutOfBounds` for it.
- An exception in the blob loop does not undo what `getContacts()` has
  already persisted (lines 136-137, before the loop at 248). The model
  returns the store together with the exception (`Polling.Retrieved`).
- With no active identity, `getContacts()` calls `getContacts(null)`
  (lines 119-121). That call persists a book whose owner is null (lines
  136-137). The next scan that reaches that book calls `equals` on null
  (line 132) and throws (`Directory.NullOwnerBookPoisonsLookups`,
  `Polling.NoIdentityPoisonsNextRetrieval`). The model returns
  `NullPointer` for this.

### Assumptions about classes that are not part of this model

- `Contacts` (the contact book) is modelled as a map from key identifier to
  contact, so `put` replaces the entry under the contact's key identifier.
  `put` and `remove` are assumed to return the book itself, which the
  service then passes to `updateEntity`.
- `new Contacts(null)` is assumed to accept a null owner, and
  `updateOrPersistEntity` is assumed to persist such a book. The null-owner
  behaviour above rests on both.
- `Identity.equals` and `Identity.hashCode` are modelled as value equality
  over key identifier, alias and drop URLs. This covers the owner match in
  `getContacts` (line 132) and the `HashMap` keys of `getAllContacts`
  (line 164).
- `Identities` files identities under their key identifier, so a later
  identity replaces an earlier one with the same key.
  `getByKeyIdentifier` returns null for an unknown key.
- `persistence.getEntities` returns books in a fixed order.
  `updateOrPersistEntity` on a new book appends it. `updateEntity`
  overwrites the book in place.
- The platform preference editor treats a null string as removing the key.
- `getIdentities().getIdentities()` enumerates the filed identities in an
  order the container does not fix. The model takes this enumeration as
  the parameter `ids` and requires `Directory.EnumeratesIdentities`: every
  filed identity appears exactly once, and nothing else appears. The same
  enumeration drives the drop loop and trial decoding.

## Model

| member | source | states |
|---|---|---|
| Common.PutAll | qabelbox/src/main/java/de/qabel/qabelbox/services/LocalQabelService.java:84-89 | putting a list into a keyed container: its keys are exactly the keys of the list, and each key maps to the last element with that key |
| Directory.Identities | qabelbox/src/main/java/de/qabel/qabelbox/services/LocalQabelService.java:83-90 | getIdentities files every persisted identity under its key identifier, the last one with a key winning |
| Directory.ActiveIdentity | qabelbox/src/main/java/de/qabel/qabelbox/services/LocalQabelService.java:92-95 | the active identity exists iff some persisted identity has the stored key identifier, and then it is one of them with that key |
| Directory.FiledIdentity | qabelbox/src/main/java/de/qabel/qabelbox/services/LocalQabelService.java:83-94 | getByKeyIdentifier(key) returns a persisted identity with that key exactly when one exists, null otherwise |
| Directory.FiledIdentityIsLookup | qabelbox/src/main/java/de/qabel/qabelbox/services/LocalQabelService.java:83-94 | the lookup of a key agrees with the container getIdentities builds, null when the key is not filed there |
| Directory.SetActiveIdentity | qabelbox/src/main/java/de/qabel/qabelbox/services/LocalQabelService.java:97-99 | only the stored key identifier changes, to the identity's |
| Directory.ActiveAfterSet | qabelbox/src/main/java/de/qabel/qabelbox/services/LocalQabelService.java:92-99 | with unique key identifiers, after setActiveIdentity(i) the active identity is i exactly when i is persisted |
| Directory.FindBook | qabelbox/src/main/java/de/qabel/qabelbox/services/LocalQabelService.java:130-135 | the scan finds the first book owned by the identity, reports when none is, and reports a null-owner book met before any match |
| Directory.GetContacts | qabelbox/src/main/java/de/qabel/qabelbox/services/LocalQabelService.java:129-139 | returns the first stored book of the identity, store unchanged; otherwise appends exactly one empty book for it; throws exactly when a null-owner book comes before any match |
| Directory.ActiveContacts | qabelbox/src/main/java/de/qabel/qabelbox/services/LocalQabelService.java:119-121 | getContacts(): the returned book is owned by the active identity (null when there is none); throws exactly when a null-owner book precedes every match; the active identity is unchanged |
| Directory.GetContactsIdempotent | qabelbox/src/main/java/de/qabel/qabelbox/services/LocalQabelService.java:129-139 | a second getContacts for the same identity creates nothing and returns the same book |
| Directory.NullOwnerBookPoisonsLookups | qabelbox/src/main/java/de/qabel/qabelbox/services/LocalQabelService.java:129-139 | after getContacts(null) has created a null-owner book, any lookup that scans past the old books throws |
| Directory.GetContactsPreservesWellFormed | qabelbox/src/main/java/de/qabel/qabelbox/services/LocalQabelService.java:129-139 | getContacts keeps at most one book per owner and every book keyed by key identifier |
| Directory.AddContact | qabelbox/src/main/java/de/qabel/qabelbox/services/LocalQabelService.java:141-143 | the active book gains the contact under its key identifier, other entries and other books unchanged; fails only when the lookup fails |
| Directory.DeleteContact | qabelbox/src/main/java/de/qabel/qabelbox/services/LocalQabelService.java:145-147 | the active book loses the contact's key identifier, other entries and books unchanged |
| Directory.ModifyContact | qabelbox/src/main/java/de/qabel/qabelbox/services/LocalQabelService.java:149-154 | afterwards the active book has exactly one entry for the contact's key, carrying its data; nothing else changes |
| Directory.ModifyIsAdd | qabelbox/src/main/java/de/qabel/qabelbox/services/LocalQabelService.java:141-154 | with books keyed by key identifier, remove-then-put gives the same store as put |
| Directory.AddThenList | qabelbox/src/main/java/de/qabel/qabelbox/services/LocalQabelService.java:141-143 | round trip: with an active identity, after addContact the active book is found again and lists exactly the added contact under its key |
| Directory.AddThenDelete | qabelbox/src/main/java/de/qabel/qabelbox/services/LocalQabelService.java:141-147 | deleting right after adding leaves the book's entries as before minus that key identifier |
| Directory.EditsPreserveWellFormed | qabelbox/src/main/java/de/qabel/qabelbox/services/LocalQabelService.java:141-154 | add, delete and modify keep one book per owner, each keyed by key identifier |
| Directory.AllContacts | qabelbox/src/main/java/de/qabel/qabelbox/services/LocalQabelService.java:161-167 | getAllContacts maps every owner (null included) to its last stored book |
| Directory.AllContactsAgreesWithGetContacts | qabelbox/src/main/java/de/qabel/qabelbox/services/LocalQabelService.java:129-167 | while owners are unique, getAllContacts files under an identity the very book getContacts returns |
| Delivery.FanOut | qabelbox/src/main/java/de/qabel/qabelbox/services/LocalQabelService.java:192-200 | one post per drop URL in order, all carrying the same bytes; the outcome map has one entry per URL, true iff the status is 200 |
| Delivery.SendDropMessage | qabelbox/src/main/java/de/qabel/qabelbox/services/LocalQabelService.java:182-205 | an oversized payload throws and nothing is sent; otherwise the bytes encoded once go to every drop, and the full map reaches the callback exactly once iff there is one |
| Delivery.OutcomeCoversEveryDrop | qabelbox/src/main/java/de/qabel/qabelbox/services/LocalQabelService.java:193-200 | N distinct drops give a map of size N, true exactly on the drops that answered 200 |
| Retrieval.ScanContacts | qabelbox/src/main/java/de/qabel/qabelbox/services/LocalQabelService.java:280-287 | finds the first contact with the claimed key identifier that registerSender accepts, and none iff no contact does |
| Retrieval.Authenticate | qabelbox/src/main/java/de/qabel/qabelbox/services/LocalQabelService.java:279-287 | the bound contact is in the list, carries the claimed key identifier and is accepted by registerSender; none iff no contact qualifies |
| Retrieval.TrialDecode | qabelbox/src/main/java/de/qabel/qabelbox/services/LocalQabelService.java:271-290 | the trials stop at the first identity that decodes, provided every earlier one declined without a spoof signal; otherwise nothing |
| Retrieval.SpoofEndsTrials | qabelbox/src/main/java/de/qabel/qabelbox/services/LocalQabelService.java:273-278 | a spoof signal ends the trials: no later identity, whatever it is, yields a message |
| Retrieval.ProcessBlob | qabelbox/src/main/java/de/qabel/qabelbox/services/LocalQabelService.java:248-290 | empty blob throws; unknown version or wrong-size v0 gives nothing; v0 version mismatch throws; a message is output iff it decodes and some contact vouches for its sender |
| Retrieval.ProcessBlobs | qabelbox/src/main/java/de/qabel/qabelbox/services/LocalQabelService.java:248-292 | the batch fails iff some blob throws; otherwise at most one message per blob, each vouched for by a contact of the list |
| Retrieval.ProcessBlobsSingle | qabelbox/src/main/java/de/qabel/qabelbox/services/LocalQabelService.java:248-290 | a one-blob batch outputs exactly that blob's message, nothing, or its exception |
| Retrieval.ProcessBlobsAppend | qabelbox/src/main/java/de/qabel/qabelbox/services/LocalQabelService.java:248-291 | the batch a + b throws the first exception of a, else of b, and otherwise outputs a's messages followed by b's: one per accepted blob, in blob order, repeats kept |
| Retrieval.BatchHoldsAcceptedBlobs | qabelbox/src/main/java/de/qabel/qabelbox/services/LocalQabelService.java:248-292 | every output message comes from some blob, and every blob's accepted message is in the output |
| Retrieval.UnknownVersionSkipped | qabelbox/src/main/java/de/qabel/qabelbox/services/LocalQabelService.java:266-269 | a blob whose first byte is not 0 contributes nothing and the batch continues |
| Retrieval.MalformedV0Skipped | qabelbox/src/main/java/de/qabel/qabelbox/services/LocalQabelService.java:259-264 | a v0 blob of unexpected size contributes nothing and the batch continues |
| Retrieval.SpoofedBlobSkipped | qabelbox/src/main/java/de/qabel/qabelbox/services/LocalQabelService.java:271-278 | a blob spoofed for the first identity that reacts to it contributes nothing and the batch continues |
| Retrieval.AuthenticateAnyShuffle | qabelbox/src/main/java/de/qabel/qabelbox/services/LocalQabelService.java:245-287 | for every shuffle of a keyed book, a message is bound iff the book holds a contact under the claimed key that registerSender accepts, and then to that contact |
| Retrieval.ProcessBlobsAnyShuffle | qabelbox/src/main/java/de/qabel/qabelbox/services/LocalQabelService.java:245-291 | any two shuffles of the same book give the same batch outcome |
| Polling.RetrieveFrom | qabelbox/src/main/java/de/qabel/qabelbox/services/LocalQabelService.java:241-293 | throws NullPointer with the store untouched when the active-book lookup does; otherwise leaves the store as the lookup did even when the batch throws, throws iff some pulled blob does, and returns at most one message per pulled blob, each bound to the active book's contact for its claimed key |
| Polling.NoIdentityPoisonsNextRetrieval | qabelbox/src/main/java/de/qabel/qabelbox/services/LocalQabelService.java:119-250 | without an active identity, the next retrieval throws NullPointer whether or not the first one threw |
| Polling.RetrieveDrops | qabelbox/src/main/java/de/qabel/qabelbox/services/LocalQabelService.java:227-230 | the drop loop keeps identities and the active preference, also when it throws, and every message is vouched for |
| Polling.RetrieveOwners | qabelbox/src/main/java/de/qabel/qabelbox/services/LocalQabelService.java:226-231 | the identity loop keeps identities and the active preference, and every message is vouched for |
| Polling.RetrieveAll | qabelbox/src/main/java/de/qabel/qabelbox/services/LocalQabelService.java:224-233 | over an enumeration of the filed identities, retrieveDropMessages() keeps identities and the active preference, also when it throws, and every message is vouched for |
| Polling.AllDropsAreFiledDrops | qabelbox/src/main/java/de/qabel/qabelbox/services/LocalQabelService.java:226-227 | the drops visited are exactly the drop URLs of the identities getIdentities files |
| Polling.Gather | qabelbox/src/main/java/de/qabel/qabelbox/services/LocalQabelService.java:227-230 | reference definition: the batches of a drop list against one contact list, concatenated; no more messages than blobs, each vouched for |
| Polling.RetrieveDropsAppend | qabelbox/src/main/java/de/qabel/qabelbox/services/LocalQabelService.java:227-230 | retrieving from a + b is retrieving from a and then from b in the store a left |
| Polling.RetrieveOwnersIsFlat | qabelbox/src/main/java/de/qabel/qabelbox/services/LocalQabelService.java:226-231 | the nested identity/drop loops equal one loop over all drops of all identities, duplicates kept |
| Polling.RetrieveDropsIsGather | qabelbox/src/main/java/de/qabel/qabelbox/services/LocalQabelService.java:228-229 | with an active identity, every call after the first sees the same store and contact list, so the result is the in-order concatenation of the batches |
| Polling.RetrieveAllIsConcatenation | qabelbox/src/main/java/de/qabel/qabelbox/services/LocalQabelService.java:224-233 | retrieveDropMessages() is the in-order concatenation over every filed identity and each of its drops, and leaves the looked-up store even when it throws; with no drops it returns nothing and changes nothing |
| Polling.SharedDropPulledTwice | qabelbox/src/main/java/de/qabel/qabelbox/services/LocalQabelService.java:226-230 | a drop shared by two filed identities is pulled twice and its messages appear twice |
| Polling.RetrieveAllGate | qabelbox/src/main/java/de/qabel/qabelbox/services/LocalQabelService.java:245-287 | for any real shuffle, each retrieved message is bound to the active book's contact under its claimed key, accepted by registerSender; output no longer than the blobs pulled |
| Polling.RetrieveAllAnyShuffle | qabelbox/src/main/java/de/qabel/qabelbox/services/LocalQabelService.java:245-246 | the shuffle order cannot change what retrieveDropMessages() returns |
| Polling.GatherAnyShuffle | qabelbox/src/main/java/de/qabel/qabelbox/services/LocalQabelService.java:245-246 | any two shuffles of the same book gather the same outcome |
| PendingUploads.AddPendingUpload | qabelbox/src/main/java/de/qabel/qabelbox/services/LocalQabelService.java:325-333 | appends the base name to the path's list (created when missing), other paths unchanged; throws iff the parser does |
| PendingUploads.IndexOfName | qabelbox/src/main/java/de/qabel/qabelbox/services/LocalQabelService.java:341-346 | finds the first file with the name, none iff no file has it |
| PendingUploads.RemovePendingUpload | qabelbox/src/main/java/de/qabel/qabelbox/services/LocalQabelService.java:335-348 | true iff the path's list has a file with the base name, and then the first such file is removed and the others keep their order; false leaves the registry unchanged; throws iff the path fails or a non-empty list meets a failing base name |
| PendingUploads.AddThenRemove | qabelbox/src/main/java/de/qabel/qabelbox/services/LocalQabelService.java:325-348 | after an add, the remove returns true and the path's list holds the same files as before the add; other paths unchanged |
| AppPreference.IntervalIsThreeDays | qabelbox/src/main/java/de/qabel/qabelbox/config/AppPreference.java:15 | the int products in the interval do not wrap; it is 259200000 ms, three days |
| AppPreference.DecryptEncrypt | qabelbox/src/main/java/de/qabel/qabelbox/config/AppPreference.java:27-35 | decrypt undoes encrypt |
| AppPreference.SetToken | qabelbox/src/main/java/de/qabel/qabelbox/config/AppPreference.java:22-25 | a token is stored iff a non-null one is set; other settings unchanged |
| AppPreference.GetToken | qabelbox/src/main/java/de/qabel/qabelbox/config/AppPreference.java:37-41 | null exactly when no token is stored |
| AppPreference.TokenRoundTrip | qabelbox/src/main/java/de/qabel/qabelbox/config/AppPreference.java:22-41 | getToken after setToken(t) returns t, null included; null before any set |
| AppPreference.GetLastAppStartVersion | qabelbox/src/main/java/de/qabel/qabelbox/config/AppPreference.java:43-46 | 0 before any set, the stored version afterwards |
| AppPreference.SetLastAppStartVersion | qabelbox/src/main/java/de/qabel/qabelbox/config/AppPreference.java:48-51 | the other settings are unchanged |
| AppPreference.LastAppStartVersionRoundTrip | qabelbox/src/main/java/de/qabel/qabelbox/config/AppPreference.java:43-51 | the version read back is the last one set, 0 before any set |
| AppPreference.SetLastAppUpdateQuestion | qabelbox/src/main/java/de/qabel/qabelbox/config/AppPreference.java:53-61 | the stored time reads back; other settings unchanged |
| AppPreference.ShouldUpdateQuestionShowed | qabelbox/src/main/java/de/qabel/qabelbox/config/AppPreference.java:63-66 | without long overflow, true iff last + 259200000 < now (equality gives false), last defaulting to 0 |
| AppPreference.ShouldUpdateMonotone | qabelbox/src/main/java/de/qabel/qabelbox/config/AppPreference.java:63-66 | once the question is due at t, it is due at every later time under the same stored time, overflow or not |
| AppPreference.OverflowMakesQuestionDue | qabelbox/src/main/java/de/qabel/qabelbox/config/AppPreference.java:53-66 | a stored time of Long.MAX_VALUE wraps the sum negative, so the question is due even at time 0 |

## Left out

- The worker thread of `sendDropMessage` is left out: the loop it runs is
  modelled in sequence. So is the Android `Service`/`Binder` lifecycle
  (`onBind`, `onCreate`, `onDestroy`, `initAndroidPersistence`). Both are
  concurrency and platform plumbing.
- `BinaryDropMessageV0` (assemble/parse/disassemble), `registerSender`,
  `CryptoUtils` and the `SecureRandom` shuffle are external crypto and
  randomness. They are function parameters.
- `DropHTTP` and `AndroidPersistence` are I/O. HTTP is a status function
  and a pull function; persistence is an in-memory store. Exceptions thrown
  by the transport itself are not modelled: every post answers with a
  status and every pull with a list of blobs.
- `SharedPreferences` is an in-memory record of optional values.
- `getDeviceID` and `initSharedPreferences` produce random bytes and use a
  hex codec; they are not modelled.
- `addIdentity`, `deleteIdentity` and `modifyIdentity` are single
  persistence calls with no logic of their own, so they are not modelled.
  `getPendingUploads` only returns the field.
- `PrefixServer`, the fragments and the instrumentation tests are network,
  UI and test code with no modellable logic.
- Polling.RetrieveFrom: every retrieval call uses one shuffle function of
  the book, where the source reshuffles randomly on each call.
  `Retrieval.ProcessBlobsAnyShuffle` shows that the order cannot change an
  outcome, so nothing is lost.
- Polling.RetrieveAllIsConcatenation: requires an active identity. Without
  one, the first call persists a null-owner book and the second call throws
  (`Directory.NullOwnerBookPoisonsLookups`).
- Retrieval.BatchHoldsAcceptedBlobs: states membership in both directions
  only. Order and repeats are stated by `Retrieval.ProcessBlobsAppend` and
  `Retrieval.ProcessBlobsSingle`.
- Delivery.SendDropMessage: the callback is recorded as the list of its
  invocations, not as a call into caller code.
