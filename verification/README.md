# GophKeeper verification models

Dafny models of the parts of GophKeeper where the difficulty lies, with proofs over all inputs, all runs or all
reachable states. `dafny verify dfyconfig.toml` checks everything.

| files | what they model |
|---|---|
| `Vault`, `Hub`, `Services`, `Replica`, `SliceNotify` | vault rows and versions, the subscriber hub and its bounded channels, the sync stream of a client, and notify over shared slices |
| `Charset`, `Sampling`, `Derive` | deterministic passwords: alphabet, rejection sampling in 32-bit arithmetic, the refill loop |
| `Shuffle`, `Generate` | Fisher-Yates and the random password generator |
| `BigEndian`, `LocalDb` | AEAD framing and the `.gkdb` container |
| `RateLimit` | the per-IP token buckets and their eviction |
| `Accounts` | sessions, login, TOTP enrolment |
| `Columns`, `Views` | ANSI-aware overlay arithmetic, list views and sorting of the terminal client |

Code that updates state in place is a class or a loop whose contract ties it to a function; the theorems are lemmas
about those functions. Libraries (HKDF, AEAD, Argon2id, bcrypt, TOTP, JSON, rune widths, lower-casing) are arbitrary
functions, constrained only by what a theorem says it needs. Random draws, generated ids, tokens and clock readings are
parameters, so each statement holds for all of them.

Places where the code does not do what its comments or its names promise, with the exact condition proved:

- Deterministic sampling is described as free of modulo bias. The threshold is one too high, so index 0 always has one
  more preimage than the others; the counts are equal only if nothing at all is accepted (`Sampling.UniformIff`).
- The same threshold wraps to 0 when the alphabet size divides 2^32 - 1. Lower case plus symbols without ambiguous
  characters (51 characters) is the only such choice, and `DerivePassword` then never returns (`Derive.StuckForever`).
- The sync handler asks for 1000 items and gets 50, it lists before it registers, and it never tells a client that an
  item has gone. `Replica.ExactAgreement` and `Replica.GhostCopyIff` say for every run exactly which stored items a client
  then holds in their stored version, and which it holds although they are gone; `TruncatedListing`, `LostInGap`,
  `PassedOver`, `OvertakenUpdate`, `OvertakenRemoval`, `StaleAfterAbsence` and `DroppedWhenFull` give runs.
- Notify loads channels and sends on them without the lock. A cancel in between shifts the array notify is reading and
  closes a channel it may hold or still load, and the send then panics. `SliceNotify.OverlapPanicsIff` and
  `SliceNotify.CancelHarmlessIff` give the exact conditions for one cancel at any point of a call with only open channels
  ahead, wherever the list lies by then; `OverlapPanics` (last of the list), `HeldPanics` (channel already loaded), `MovedPanics` (list reallocated
  since the snapshot) and `OverlapSkips` are runs in which every cancel is called once.
- A vault file whose encrypted body is over 1 GiB is saved without an error, but one `File.Read` does not return all of
  it: `LocalDb.RoundTripIff` says exactly when it still loads, `LocalDb.LargeVaultLost` gives vaults that do not.
- An access token carries an MFA flag. Refresh hands out flagged tokens only exactly when no session is opened unverified
  (`Accounts.AlwaysFlaggedIff`; `Accounts.UnflaggedRefresh` is a run). The interceptor accepts tokens whatever their flag
  (internal/server/middleware/auth.go:59-75).
- VerifyTOTP marks the session id it is given (internal/server/storage/postgres/sessions.go:44-48). That a flag stands for
  a code of the session's own user holds exactly when no mark hits a live unverified session of another user than the one
  whose code was accepted (`Accounts.OwnFlagsIff`; `Accounts.OtherUsersMark` is a run).

## Model
| member | source | states |
|---|---|---|
| `Vault.VersionCountsUpdates` | internal/server/storage/postgres/vault.go:16-43 | in every run with fresh ids a live item's version is 1 plus the number of its successful updates |
| `Vault.VersionIdentity` | internal/server/storage/postgres/vault.go:16-55 | between any two points of a run an id keeps owner and type, its version never goes back, and an equal version means equal content |
| `Vault.RowHistory` | internal/server/storage/postgres/vault.go:16-55 | in every run with fresh ids a stored row has the owner and type of its creation, the payload and metadata of the owner's last write, and as version one plus the owner's updates |
| `Vault.StoredIff` | internal/server/storage/postgres/vault.go:16-55 | an id is stored if and only if it was created with a known type and its owner has not deleted it since |
| `Hub.WithoutAt` | internal/server/service/sync.go:38-42 | removing a channel from a duplicate-free list is the slice expression of the source, so the others keep their order |
| `Hub.BroadcastEach` | internal/server/service/sync.go:58-67 | on distinct open channels the send loop offers the event once to each listed channel and changes no other |
| `Hub.CancelValid` | internal/server/service/sync.go:34-45 | cancelling an open channel keeps the table invariant: no channel listed twice or for two users, open exactly when listed, buffers within 32 |
| `Hub.NextValid` | internal/server/service/sync.go:28-68 | with notify taken as one step, every action keeps that invariant, and only a cancel of a closed channel panics |
| `Hub.ChannelOfRun` | internal/server/service/sync.go:28-46 | owner and open state of every channel follow from the run's subscribe and cancel actions alone |
| `Hub.PanicIffCancelledTwice` | internal/server/service/sync.go:34-67 | with notify taken as one step, a run panics if and only if some cancel function is called twice |
| `Hub.DeliveredInOrder` | internal/server/service/sync.go:58-68 | with notify taken as one step, received plus buffered is exactly the published events whose offer met a free slot, in order |
| `Hub.Delivery` | internal/server/service/sync.go:28-68 | with notify taken as one step, received plus buffered is an in-order subsequence of what was published for the channel's own user while subscribed, the number missing is the number of offers that met a full buffer, and the buffer holds at most 32 |
| `Services.SyncService.Subscribe` | internal/server/service/sync.go:28-32 | adds one open, empty channel, listed last for its user, and touches nothing else; the table stays valid |
| `Services.SyncService.Cancel` | internal/server/service/sync.go:34-45 | panics exactly on a channel already closed; otherwise the channel leaves its user's list, the others keeping their order, and is closed |
| `Services.SyncService.Notify` | internal/server/service/sync.go:58-68 | with notify taken as one step, each open channel of the user with fewer than 32 buffered events gets the event behind them, nothing else changes, and there is no panic on a valid table |
| `Services.SyncService.Receive` | internal/server/handler/sync.go:66-69 | takes the oldest buffered event of that channel only |
| `Services.VaultService.Create` | internal/server/service/vault.go:23-40 | for the five known types stores the given content as version 1 and publishes exactly the stored item, otherwise nothing is stored or published |
| `Services.VaultService.Update` | internal/server/service/vault.go:56-72 | the owner's row gets the given payload and metadata and the next version, other rows stay, and exactly the stored item is published; another user's or a missing id changes and publishes nothing |
| `Services.VaultService.Delete` | internal/server/service/vault.go:75-84 | removes the owner's row and publishes its removal, otherwise changes and publishes nothing |
| `Replica.ListPage` | internal/server/storage/postgres/vault.go:57-100 | the page is the longest prefix of the answer within the limit, which is 50 outside 1 to 200, and a cursor is returned exactly when rows are left, naming the first of them |
| `Replica.SendCatchUp` | internal/server/handler/sync.go:35-56 | a listed item is sent if and only if it was not announced or last announced with an older version; each event carries its payload, metadata and version, and they go out in listing order |
| `Replica.MissingNewer` | internal/server/handler/sync.go:45-56 | catch-up events carry the current payload, metadata and version of listed items, and only of items unannounced or announced older |
| `Replica.MissingExact` | internal/server/handler/sync.go:45-56 | the function behind it sends exactly those items, in listing order |
| `Replica.WireCarries` | internal/server/handler/sync.go:66-96 | the live event of a stored item has its id, payload, metadata and version |
| `Replica.EventCarries` | internal/server/service/vault.go:36-82 | the event of a write has the id and content written, and the version the write gave it |
| `Replica.MissingApplied` | internal/server/handler/sync.go:45-56 | applying the catch-up to a truthful client brings exactly the listed items up to date and leaves its other copies alone |
| `Replica.PublishIsOffer` | internal/server/handler/sync.go:66-78 | on a registered channel a publication that comes to it is the hub's non-blocking offer, event by event |
| `Replica.NextInv` | internal/server/handler/sync.go:35-83 | each step of any interleaving keeps the simulation invariant |
| `Replica.ArrivedStep` | internal/server/handler/sync.go:45-78 | each step changes what the client will hold only by the events it sends towards the client |
| `Replica.ArrivedIsLastWord` | internal/server/handler/sync.go:35-83 | in every interleaving, notify calls that skip the channel or come to it several times included, the client will hold of each id, stored or not, exactly the last event sent about it, or what it held at connection |
| `Replica.ExactAgreement` | internal/server/handler/sync.go:35-83 | in each of those interleavings the client's payload, metadata and version of a stored item (everything in flight applied) are the stored ones if and only if the last event sent about it, or the copy held at connection if there was none, carries the stored version |
| `Replica.GhostCopyIff` | internal/server/handler/sync.go:35-83 | in each of those interleavings an id that is not stored is in that copy if and only if the last event sent about it is an upsert, or it was held at connection and no event was sent about it |
| `Replica.ReplicaAgreement` | internal/server/handler/sync.go:35-83 | with serial writes, none between listing and registration, at most 50 items, and no full buffer or passed-over channel for an event the client needs, applying sent, buffered and pending events gives every stored item with its payload, metadata and version, and any extra id was held before connecting |
| `Replica.EarlyIsMissable` | internal/server/service/sync.go:58-67 | in those runs whatever is still to be published after catch-up may pass over the new channel, as a notify whose snapshot is older does |
| `Replica.StartFromHistory` | internal/server/handler/sync.go:34-47 | a client whose copies are contents the vault once had meets the start condition, by version identity |
| `Replica.TruncatedListing` | internal/server/storage/postgres/vault.go:58-61 | with more than 50 stored items a new client's copy after catch-up lacks exactly the number beyond 50 |
| `Replica.LostInGap` | internal/server/handler/sync.go:41-59 | a run in which an item created between listing and registration never reaches the client |
| `Replica.PassedOver` | internal/server/service/sync.go:40-67 | a run in which notify passes over the client's channel and an item never reaches it |
| `Replica.OvertakenUpdate` | internal/server/service/vault.go:56-72 | a run in which two updates notify in the other order and the client ends on the older version |
| `Replica.OvertakenRemoval` | internal/server/service/vault.go:75-84 | a run in which a removal notifies before the earlier upsert and the client keeps an item that is gone |
| `Replica.StaleAfterAbsence` | internal/server/handler/sync.go:45-56 | whatever is listed, an item held by the client and deleted before it connects is still in its copy after catch-up |
| `Replica.DroppedWhenFull` | internal/server/service/sync.go:62-66 | a run of 33 versions, all published, in which the last meets a full buffer and the client stays at version 32 |
| `SliceNotify.NextValid` | internal/server/service/sync.go:28-68 | with slices and backing arrays modelled, notify as single loads and sends and cancel as removal and close, every step that does not panic keeps each user's list exactly the user's open channels that are not being cancelled |
| `SliceNotify.NotifyExact` | internal/server/service/sync.go:29-67 | in every interleaving without a cancel for that user a notify call offers to exactly the channels of its snapshot, in order, whatever is appended meanwhile, and what it holds or has yet to load is open |
| `SliceNotify.NotifyDelivers` | internal/server/service/sync.go:58-67 | in those interleavings what has been offered is a prefix of the list at the snapshot, without repetition, and the whole list once the call is finished |
| `SliceNotify.FinishIff` | internal/server/service/sync.go:62-66 | finishing a call without interruption panics if and only if the channel it holds or one it has yet to load is closed, and otherwise offers to all of them |
| `SliceNotify.SameRecipientsIff` | internal/server/service/sync.go:38-42 | for any valid memory and any open channel, its cancel leaves what is ahead of a call as it was if and only if the list lies in another array or the shift does not reach the slots the call has yet to load |
| `SliceNotify.ReachedIff` | internal/server/service/sync.go:34-66 | for any valid memory and any open channel, after its cancel a call still loads it if and only if: the list has moved to another array and the channel is among the call's unread words; or it is the last of the list, inside the snapshot and unread; or an unread slot behind the list's end still shows it |
| `SliceNotify.ReachedOnLongList` | internal/server/service/sync.go:34-66 | for a list at least as long as the snapshot, on its array, that is: the channel is the last of both and unread |
| `SliceNotify.OverlapPanicsIff` | internal/server/service/sync.go:34-67 | for any valid memory, a call with only open channels ahead and any open channel: finishing the call after that channel's cancel panics if and only if the call holds it or reaches it in that sense |
| `SliceNotify.CancelHarmlessIff` | internal/server/service/sync.go:34-67 | that cancel leaves the channels ahead of the call unchanged and open if and only if the call neither holds nor reaches the channel and the shift passes it by |
| `SliceNotify.ClosedOfRun` | internal/server/service/sync.go:34-45 | which channels are closed, and which is about to be, follows from the run's cancels alone |
| `SliceNotify.PanicStepIff` | internal/server/service/sync.go:34-67 | after any run a step panics if and only if it closes a channel a second time or sends on a loaded channel whose cancel has come to its close |
| `SliceNotify.PanicIffCancelledTwice` | internal/server/service/sync.go:34-67 | with loads and sends interleaved freely and no cancel between a snapshot and the last send for the same user, a run panics if and only if the cancel of some channel comes to its close twice |
| `SliceNotify.OverlapPanics` | internal/server/service/sync.go:34-67 | a run that panics although every cancel is called once: the last of three channels is cancelled before the first load |
| `SliceNotify.HeldPanics` | internal/server/service/sync.go:62-66 | another one: a channel is cancelled between its load and its send |
| `SliceNotify.StalePanics` | internal/server/service/sync.go:38-66 | another one: the load races with the shift and sees the channel that is being removed |
| `SliceNotify.MovedPanics` | internal/server/service/sync.go:31-66 | another one: the list is reallocated after the snapshot and then its first channel is cancelled |
| `SliceNotify.OverlapSkips` | internal/server/service/sync.go:40-67 | a run in which one channel is skipped and another is offered the event twice |
| `Charset.FilterAmbiguous` | internal/shared/crypto/passgen.go:168-176 | the filter loop keeps the unambiguous characters in order |
| `Charset.BuildAlphabet` | internal/shared/crypto/passgen.go:158-176 | the loop-built alphabet is the alphabet of the option set |
| `Charset.AlphabetText` | internal/shared/crypto/passgen.go:17-21 | that alphabet spelled out for every flag combination |
| `Charset.AlphabetSize` | internal/shared/crypto/passgen.go:17-21 | its size for all sixteen flag combinations |
| `Sampling.ExactCount` | internal/shared/crypto/passgen.go:189-210 | for every size m not dividing 2^32 - 1, with q = (2^32 - 1) / m, index 0 has exactly q + 1 accepted words and every other index exactly q |
| `Sampling.NothingAcceptedIff` | internal/shared/crypto/passgen.go:190-209 | no word is accepted if and only if m divides 2^32 - 1 |
| `Sampling.UniformIff` | internal/shared/crypto/passgen.go:188-210 | all indices have equally many preimages if and only if nothing is accepted |
| `Sampling.StuckAlphabet` | internal/shared/crypto/passgen.go:158-190 | among all option sets exactly lower case plus symbols, filtered, of size 51, accepts nothing |
| `Sampling.DefaultAlphabetIsBiased` | internal/shared/crypto/passgen.go:34-42 | for all classes unfiltered: 48806447 words for index 0, 48806446 for index 1 |
| `Derive.CollectedMeaning` | internal/shared/crypto/passgen.go:192-211 | whatever lap and position the loop is at, character k collected is character k of First ++ Again ++ Again ++ ... |
| `Derive.IterateProgress` | internal/shared/crypto/passgen.go:193-211 | each iteration adds a character or brings the next accepted word closer |
| `Derive.TerminatesIff` | internal/shared/crypto/passgen.go:193-211 | the loop terminates if and only if the first stream alone suffices or the refill stream holds an accepted word |
| `Derive.StuckForever` | internal/shared/crypto/passgen.go:158-211 | for the 51-character alphabet no key, realm or length ever terminates |
| `Derive.Decimal` | internal/shared/crypto/passgen.go:196-197 | the text of the word index in the refill salt: digits of that value without a leading zero |
| `Derive.StreamSource` | internal/shared/crypto/passgen.go:181-203 | both streams byte by byte as HKDF output: master key, the two salts, and the realm as info |
| `Derive.EndsIff` | internal/shared/crypto/passgen.go:189-211 | for each key, realm and option set, some number of iterations is enough if and only if the accepted words of the first output suffice or the refill output has one |
| `Derive.Sample` | internal/shared/crypto/passgen.go:181-212 | watched for any number of iterations the loop is still running if and only if those iterations collect too little, and otherwise it returns the first Length characters of that endless text, every refill using the salt for index Length |
| `Derive.DerivePassword` | internal/shared/crypto/passgen.go:150-213 | errors for an empty realm, a length below 4 and more than 8160 stream bytes, in that order; otherwise character k is picked, modulo the alphabet size, by the k-th word below the threshold in the HKDF output of key, salt and realm, continued by the refill output over and over |
| `Shuffle.ShuffleInPlace` | internal/shared/crypto/passgen.go:125-135 | the in-place loop computes the shuffle function of its draws |
| `Shuffle.ShuffledMultiset` | internal/shared/crypto/passgen.go:125-135 | shuffling permutes |
| `Shuffle.Injective` | internal/shared/crypto/passgen.go:125-135 | different draws arrange distinct elements differently |
| `Shuffle.Onto` | internal/shared/crypto/passgen.go:125-135 | every arrangement has draws that produce it |
| `Shuffle.ExactlyOneChoice` | internal/shared/crypto/passgen.go:125-135 | each permutation comes from exactly one draw sequence and nothing else comes from any |
| `Generate.RequiredChars` | internal/shared/crypto/passgen.go:86-102 | one draw from each enabled, filtered class, in class order |
| `Generate.GeneratedMeets` | internal/shared/crypto/passgen.go:104-115 | for every source of draws: exact length, only alphabet characters, every enabled class present after overwrite and shuffle |
| `Generate.EveryPasswordReached` | internal/shared/crypto/passgen.go:104-115 | every text meeting those requirements is produced by some draws, which are constructed |
| `Generate.MeetsIff` | internal/shared/crypto/passgen.go:17-21 | the requirements on classes and alphabet, as requirements on the kinds of characters |
| `Generate.ReachesExactly` | internal/shared/crypto/passgen.go:45-115 | for every option set the reachable passwords are exactly the texts of that length with characters of the enabled kinds, none of l1IO0 if ambiguous ones are excluded, and at least one of each enabled kind |
| `Generate.GeneratePassword` | internal/shared/crypto/passgen.go:45-115 | fails exactly below length 4, otherwise returns such a text, the one generated by the draws |
| `LocalDb.DecryptEncrypt` | internal/shared/crypto/aead.go:17-46 | decrypting an encryption returns the plaintext through the nonce framing |
| `BigEndian.FromBe32RoundTrip` | internal/shared/crypto/passgen.go:205-206 | four-byte blocks and 32-bit words correspond one to one |
| `BigEndian.Be32Value` | internal/client/vault/localdb.go:99-113 | the four bytes of a length, most significant first |
| `LocalDb.LocalDB.Save` | internal/client/vault/localdb.go:53-116 | the file becomes what fits on the device of: magic, version 1, and the three length-prefixed sections, the sentinel and the marshalled data each sealed behind its own nonce (or magic and version alone if a section is oversized), and the error tells which; a marshal, key or open error leaves the old file |
| `LocalDb.LocalDB.WriteParts` | internal/client/vault/localdb.go:89-115 | the eight writes, each of which can fail after a part of its bytes, leave exactly that prefix of the image |
| `LocalDb.LocalDB.Load` | internal/client/vault/localdb.go:119-186 | the cursor-driven reads compute the load function; without a file, ErrVaultNotFound |
| `LocalDb.LoadedText` | internal/client/vault/localdb.go:129-185 | on every file made of four bytes, a version, three complete sections and anything behind them: each error in its place, otherwise the data that the body holds |
| `LocalDb.SavedText` | internal/client/vault/localdb.go:76-114 | the sections and bytes of a saved file, which the following results start from |
| `LocalDb.RoundTrip` | internal/client/vault/localdb.go:53-186 | for every data, password, keyfile and randomness whose sections fit, Load after Save returns the data if the encrypted body is at most 1 GiB |
| `LocalDb.RoundTripIff` | internal/client/vault/localdb.go:171-178 | for every size, Load after Save returns the data if and only if no byte of the encrypted body past the first GiB is non-zero |
| `LocalDb.LargeVaultLost` | internal/client/vault/localdb.go:114-178 | all data of one to two GiB, under one cipher, are saved without an error and then refused with ErrWrongPassword |
| `LocalDb.WrongKey` | internal/client/vault/localdb.go:163-165 | a key that does not open the key check gives ErrWrongPassword |
| `LocalDb.VersionIgnored` | internal/client/vault/localdb.go:134-137 | for every file the two version bytes have no influence on the result |
| `LocalDb.CutBody` | internal/client/vault/localdb.go:167-185 | a file cut in its body section, or not at all, loads if and only if a body byte is left and all bytes past the cut or past the first GiB were zero, and then as saved |
| `LocalDb.Truncation` | internal/client/vault/localdb.go:129-185 | every prefix, such as an interrupted Save leaves, loads to an error or to exactly the saved data, the latter if and only if the cut lies in the body and every byte past the cut or past the first GiB of the body was zero |
| `LocalDb.HeaderOnly` | internal/client/vault/localdb.go:96-98 | what an oversized Save leaves, cut or not, loads as ErrInvalidVault |
| `RateLimit.RateLimiter.Allow` | internal/server/middleware/ratelimit.go:48-58 | the decision for one address; its entry is there afterwards, last seen now, and no other entry changes |
| `RateLimit.RateLimiter.Cleanup` | internal/server/middleware/ratelimit.go:61-73 | the deletion loop removes exactly the entries idle for more than five minutes |
| `RateLimit.RateLimiter.Intercept` | internal/server/middleware/ratelimit.go:89-99 | the three listed methods alone consult and change the table; every other call passes |
| `RateLimit.EvictionInvisible` | internal/server/middleware/ratelimit.go:48-73 | if b <= 300 r every schedule of requests and ticks gets the same answers as from a table that never evicts |
| `RateLimit.EvictionInvisibleIff` | internal/server/middleware/ratelimit.go:66-70 | that condition is also necessary: otherwise some schedule tells the tables apart |
| `RateLimit.Budget` | internal/server/middleware/ratelimit.go:91-96 | requests admitted plus tokens left never exceed b plus r times the elapsed time |
| `RateLimit.WindowBound` | internal/server/middleware/ratelimit.go:91-96 | any window of T seconds admits at most b + r T requests of one address |
| `RateLimit.DeniedIff` | internal/server/middleware/ratelimit.go:48-96 | a request is denied if and only if some window of T seconds that ends with it has already admitted more than b + r T - 1 requests of its address |
| `RateLimit.ServerLimits` | internal/server/app/app.go:65 | invisible eviction, the window bound and the exact denials for the server's 5 per second, burst 10 |
| `Accounts.RefreshHistory` | internal/server/service/auth.go:137-151 | Refresh succeeds if and only if the token's latest successful insert has not been deleted and has not expired, with that session's subject and MFA flag |
| `Accounts.SweepsInvisibleIff` | internal/server/storage/postgres/sessions.go:15-59 | with sessions created to expire later, removing the expiry sweeps changes no refresh outcome at any point of a run if and only if no token is stored again after its expired session was swept |
| `Accounts.RefreshFlag` | internal/server/service/auth.go:137-151 | a token that refreshes does so for the user of the session that opened it, with the MFA flag if and only if that session was opened verified or its id has been marked since |
| `Accounts.AlwaysFlaggedIff` | internal/server/service/auth.go:107-151 | in every run of statements, refresh hands out flagged access tokens only, at any point, if and only if no session is opened unverified |
| `Accounts.UnflaggedRefresh` | internal/server/service/auth.go:107-151 | a run in which a session opened unverified refreshes to an unflagged access token |
| `Accounts.OwnFlagsIff` | internal/server/service/mfa.go:119-126 | in every run, a flagged refresh at any point stands for a session opened verified or for an accepted code of that session's own user, if and only if no mark hits a live unverified session of another user |
| `Accounts.OtherUsersMark` | internal/server/storage/postgres/sessions.go:44-48 | a run in which a session is marked by another user's code and refreshes with the flag |
| `Accounts.AccountHistory` | internal/server/service/mfa.go:76-81 | in every reachable state an account is as registered, and MFA-required if and only if that has been written for its id since |
| `Accounts.RecordHistory` | internal/server/service/mfa.go:45-78 | in every reachable state a TOTP record is as enrolled, and confirmed if and only if that has been written for it since |
| `Accounts.ConfirmThenLogin` | internal/server/service/auth.go:107-134 | after a completed confirmation the next login of that user asks for a code, hands out no access token and opens an unverified session |
| `Accounts.RequiredHasConfirmed` | internal/server/service/mfa.go:62-84 | in every reachable state, between the two writes, after a failure there and after re-enrolment, a user marked MFA-required owns a confirmed record |
| `Accounts.RequiredCanVerify` | internal/server/service/mfa.go:62-122 | in every reachable state a user marked MFA-required owns a record whose codes the scan of VerifyTOTP accepts |
| `Accounts.AuthService.Register` | internal/server/service/auth.go:42-62 | succeeds exactly for an unused name and email, and adds only that user |
| `Accounts.AuthService.Login` | internal/server/service/auth.go:86-134 | outcome for unknown user, wrong password and token conflict; on success one session of that user for thirty days, verified unless a code is required, whose token refreshes with that flag until then; whoever is asked for a code has a confirmed record |
| `Accounts.AuthService.Refresh` | internal/server/service/auth.go:137-151 | answers by the stored session and its expiry |
| `Accounts.AuthService.Logout` | internal/server/service/auth.go:154-158 | no later refresh of the token succeeds |
| `Accounts.AuthService.EnrollTotp` | internal/server/service/mfa.go:36-58 | adds an unconfirmed record and keeps everybody required to use MFA able to |
| `Accounts.AuthService.ConfirmTotp` | internal/server/service/mfa.go:62-84 | a bad code changes nothing; otherwise, by the write that fails, nothing, the record confirmed, or also every account with that id marked as MFA-required, and nothing else; everybody required to use MFA still has a confirmed record |
| `Accounts.AuthService.ListTotp` | internal/server/storage/postgres/mfa.go:50-67 | exactly the user's confirmed records |
| `Accounts.AuthService.VerifyTotp` | internal/server/service/mfa.go:100-149 | passes if and only if some stored confirmed record of the user accepts the code; sessions with the given id are marked and a verified one for thirty days is opened, with the marks kept when that fails |
| `Columns.VisColWidth` | internal/client/tui/app.go:2266-2283 | the scan computes the visible width |
| `Columns.InEscapeIff` | internal/client/tui/app.go:2266-2283 | the scan is inside an escape if and only if some ESC has no 'm' behind it yet |
| `Columns.EscapeInvisible` | internal/client/tui/app.go:2266-2283 | an escape sequence takes no columns and changes nothing of what follows it |
| `Columns.OffsetForCol` | internal/client/tui/app.go:2287-2307 | the scan finds the first visible rune at or after the column |
| `Columns.CutMonotone` | internal/client/tui/app.go:2287-2307 | the cut moves right with the column and is determined by it |
| `Columns.CutAdditive` | internal/client/tui/app.go:2266-2307 | visible width is additive across a cut |
| `Columns.CutWidth` | internal/client/tui/app.go:2287-2307 | the part before the cut is col or col + 1 columns wide |
| `Columns.OvershootIff` | internal/client/tui/app.go:2287-2307 | it is col + 1 if and only if a wide rune straddles the column |
| `Columns.OverlayKeepsWidthIff` | internal/client/tui/app.go:2248-2259 | a fitting overlay keeps the line's width if and only if both or neither of its edges fall inside a wide rune |
| `Columns.OverlayOverhang` | internal/client/tui/app.go:2254-2259 | an overlay that sticks out past the end makes the line as wide as its own end, or one more if a wide rune straddles its start |
| `Columns.OverlayPadded` | internal/client/tui/app.go:2252-2253 | beyond the line the overlay starts exactly at its column |
| `Columns.DrawnContent` | internal/client/tui/app.go:2252-2259 | the overlay's own text stands between the line up to its column and the line from the column behind it, or behind the line and the filled gap |
| `Columns.Placeover` | internal/client/tui/app.go:2237-2262 | each covered row is drawn once, every other row is unchanged |
| `Views.ExchangeSort` | internal/client/tui/app.go:1189-1195 | the double loop yields a sorted permutation for any key |
| `Views.FilteredItems` | internal/client/tui/app.go:1114-1207 | the list is a permutation of the filtered, searched view: in server order without a mode, else ascending by lowered name, or by type and then lowered name, character by character |
| `Views.ShowsExactly` | internal/client/tui/app.go:1117-1173 | what each fixed sidebar entry and each folder shows, in terms of an item's flags, type and folder |
| `Views.ViewConcat` | internal/client/tui/app.go:1117-1173 | a view goes item by item and keeps their order |
| `Views.MatchingOne` | internal/client/tui/app.go:1175-1184 | an item matches if and only if the query is empty or, lowered, a part of its lowered name |
| `Views.MatchingConcat` | internal/client/tui/app.go:1175-1184 | searching goes item by item and keeps their order |
| `Views.BeforeIff` | internal/client/tui/app.go:1186-1206 | the comparison is lexicographic: the first difference decides, and a proper prefix comes first |
| `Views.StatusPartition` | internal/client/tui/app.go:1117-1138 | Trash, Archive and All contain every item exactly once between them |
| `Views.TypePartition` | internal/client/tui/app.go:1140-1173 | Login, Card, Identity, Note and Files contain every active item of known type exactly once between them |
| `Views.Folders` | internal/client/tui/app.go:107-127 | one entry for each folder of an active item, strictly ascending |
| `Views.FolderViews` | internal/client/tui/app.go:107-127 | every active item with a folder is in exactly one folder view and no folder view is empty |

## Left out
- Derive.DerivePassword: a method must terminate, so the number of iterations it is watched for is a parameter; a call that never returns is one that is still running after any number (Derive.TerminatesIff says which). The overflow of `Length*4` for lengths near 2^61 is not modelled.
- Generate.GeneratePassword: a failing system random source (a panic or an error return) is not modelled.
- Replica.ReplicaAgreement: the repository's own `sync` command only prints events; applying an upsert or a delete to a copy is the meaning the protocol gives them. Reconnecting is a new run.
- Replica.ListPage: one page only; concatenated pages do not cover the set because the cursor compares ids while the order is by update time. The query's order is a parameter.
- Hub.NextValid: holds with notify as one step; the code releases the lock between the snapshot and the sends. SliceNotify models that gap.
- Hub.PanicIffCancelledTwice: holds with notify as one step; SliceNotify.PanicStepIff says what panics without that hypothesis, and SliceNotify.PanicIffCancelledTwice needs only that no cancel falls inside a notify for the same user.
- Hub.DeliveredInOrder: holds with notify as one step; two calls whose sends interleave may offer their events to different channels in different orders.
- Hub.Delivery: holds with notify as one step, for the same reason.
- Services.SyncService.Notify: holds with notify as one step; a method runs without interruption.
- SliceNotify.NotifyExact: says nothing about runs in which a cancel for the same user overlaps the call; the code does not exclude them, and SliceNotify.ReachedIff and the lemmas after it treat one such cancel. What the buffers hold is left to Hub.
- SliceNotify.NextValid: a load that races with the words being shifted sees the old or the new word, in any order; whatever else Go leaves undefined for a data race is not modelled.
- RateLimit.RateLimiter.Allow: the time of getLimiter and the time of Allow are one reading, and tokens are real numbers instead of floating point.
- LocalDb.Truncation: assumes that no zero-filled truncation of the encrypted body is itself a valid ciphertext other than those written; reads of a regular file are taken to come up short only at its end and at the 1 GiB that one call returns.
- LocalDb.RoundTrip: the bound on the encrypted body is the code's own (LocalDb.RoundTripIff); printed KDF parameters are taken to be under 1 GiB.
- LocalDb.LocalDB.Load: a file that cannot be opened although it exists, and a device error during a read, are not modelled.
- Accounts.AuthService.Login: database failures other than a token conflict are not modelled, here and in the other account operations, except for the two writes of a confirmation.
- Columns.OffsetForCol: offsets count runes; the byte offset of the source is the length of the same runes in valid UTF-8.
- Vault.VersionCountsUpdates: versions are unbounded integers, not 64-bit.
- Timestamps of items, audit entries, vault key material in login results, JWT signing, webauthn tables: passed through or easy members.
- Local cache file, keyfile, passphrase and key generation helpers, gRPC handlers for auth and vault, configuration, commands, rendering: plumbing or library calls.
