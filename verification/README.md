# Pacto backend: verified state machines

A Dafny model of the state machines at the heart of the Pacto desktop backend
(`src-tauri/src`), with proofs of what they keep over every run: across crashes, wrong
PINs, reordered and repeated messages, expiry and pruning.

`dafny verify dfyconfig.toml` checks the whole project.

## What is modelled

| file | system part |
|---|---|
| `RekeySpec`, `KeyMigration`, `MigrationRuns` | moving every encrypted row from the legacy key to the salt-derived key; the unlock that repairs and opens the account |
| `SessionHistory` | a device over histories of unlocks, saved events and locks: the session key and what comes to be sealed under it |
| `EditHistory`, `EditProtocol` | a message's edit history, who may edit, and edits and originals arriving in any order through the store and the live copy |
| `JoinInboxSpec`, `JoinInboxOrder`, `JoinInboxKeys`, `JoinInboxCommands`, `JoinInbox` | the replicated join-inbox row, its local secret, the messages that move them and the commands that mint, share, rotate and reclaim |
| `Timeline` | a chat's sorted timeline, the unread walk, the chat list |
| `CatchUp` | the catch-up index and its agreement with the read watermark |
| `Broadcasts`, `CommonsWire` | the broadcast board, tombstones, tags, and the event a broadcast travels in |
| `Polls` | poll replicas, votes and tallies |
| `LegacyRename` | the crash-safe move of a SQLite database and its companions |
| `Sorting`, `Wrappers` | the stable sort of the standard library; `Option` and `Result` |

State the source changes in place is a class here, and its methods are proved against a
function or relation on values; the theorems are about those, over all histories.

Idealisations:

- The cipher is an ideal authenticated cipher (in the sense of section 2.8 of RFC 8439): a
  ciphertext opens under exactly the key that sealed it. Keys of different PINs or salts, and
  the two derivations, never collide.
- A crash is a durable write that does not happen: `writesLeft` (and `renamesLeft`) says how
  many more succeed, and ranges over all naturals, so an attempt may stop before any write.
  Migration, join-inbox commands and file moves are all proved at every such stop.
- JSON is a round trip; wires are datatypes. An event id is a hash, so it names one body.
- Clocks, fresh salts and keys, signing times and group membership are parameters.
- Integers are unbounded; widths appear where the code's result depends on them (the epoch
  saturates at `i64::MAX`, receipts and decimal tag values are bounded by it).

## What the proofs found

Where something one might expect does not hold, a lemma gives the exact condition under which
it does, for all inputs.

- The migration's count and scan select event kinds 14 and 16, although its comment promises
  every encrypted row and `save_event` also encrypts captions, kind 15. This is latent: no
  history of this code seals a caption under a legacy key (`CaptionsNeverLegacy`).
- An unlock installs the session key before it tries the pkey. A wrong PIN on a migrated
  account, and only that, leaves a session key that does not open the account
  (`UnlockInstallsForeignKeyIff`); the biometric path checks first. Over every history, a
  migrated account opens in full with its new key if and only if no text was ever sealed under
  another (`EverythingOpensIff`).
- A retraction hides its key for good if and only if every live broadcast of the key is
  shadowed, or is older than the tombstone and expires no later (`RetractionHidesIff`). It
  fails when the tombstone is signed in the broadcast's own second
  (`SameSecondIsNotRetired`), and when an earlier, longer
  broadcast of the key outlives the tombstone: that one returns to the feed
  (`LongerBroadcastResurfaces`).
- Join-inbox rows are not last-writer-wins. All orders of the same messages agree on the inbox
  if and only if one inbox is named at the greatest epoch (`InboxOrderFreeIff`), and on the
  whole row if and only if, besides, one list there settles it (`RowOrderFreeIff`).
- A key share that comes while a device's row does not list it is refused and not kept for
  later. Every member's device holds the row, so a new holder loses the key when the share
  comes before the announcement (`EarlyShareIsLost`). All orders leave a usable key if and only
  if the device has it already or no order makes it refuse the share (`KeyArrivesIff`, and
  `AddedHolderCanUseShareIff`, `RotationReachesIff` for the two commands).
- Over every run, cut off anywhere, no secret is ever older than its row if and only if no late
  key share is taken (`LateShareReplacesNewerKey`) and no first row is written over an older
  secret (`FirstRowKeepsOlderKey`, `SecretNeverOlderIff`).
- A reclaim cut off between its two writes is lost: the split is no longer recognised, so
  repeating it does nothing (`RetryCompletesIff`, `InterruptedReclaimIsLost`).
- Resolving a catch-up listing is exact if and only if each listed message chat can be marked
  and holds no open message outside the listing (`ResolveAllIsExactIff`). The recording paths
  give each chat one kind of message entry, and then only the first half matters
  (`FilteredListingIsExactIff`): a listed message of a chat that is not loaded stays open.
- A vote that arrives before its poll is lost. A stream leaves the rows it would leave with
  every create first if and only if each admissible vote is overtaken by a timely one
  (`StreamLosesNothingIff`). All orders that lose nothing agree if and only if the latest votes
  of each ballot say the same (`VoteOrderFreeIff`, `StreamOrderFreeIff`). Option ids are not
  checked for repeats, and tallies overcount exactly when a chosen one repeats
  (`TalliesCountVotersIff`).
- Edits of equal time show their order of arrival, so orders agree if and only if times differ
  (`OrderIsFreeIff`).
- A stray companion file under a current name is adopted by the moved database
  (`MovedIntactIff`).

## Model

| member | source | states |
|---|---|---|
| RekeySpec.RekeyKeepsReading | src-tauri/src/migration.rs:273-308 | Re-encrypting any waiting rows loses, adds and swaps none: each row opens under one of the two keys to the plaintext it had, and rows not re-encrypted are untouched. |
| RekeySpec.RekeySelects | src-tauri/src/migration.rs:182-245 | Re-encrypting changes neither which rows the scan selects nor which are unreadable, and takes exactly the re-encrypted rows off the waiting ones, table by table. |
| KeyMigration.Account.Query | src-tauri/src/migration.rs:283-292 | A table's scan returns each selected row once with its current ciphertext, and no other row. |
| KeyMigration.Account.UpdateSingleRow | src-tauri/src/migration.rs:248-268 | One row update is one durable write that changes that row's ciphertext only, or fails and changes nothing. |
| KeyMigration.Account.CountEncryptedRows | src-tauri/src/migration.rs:182-245 | The pre-count is the number of filled secrets: named settings, imported accounts, inbox and bot secrets, direct messages and their edits, and rows of the old messages table; and equals the number of rows the scan will visit, whichever tables exist. |
| KeyMigration.Account.MigrateRow | src-tauri/src/migration.rs:295-304 | A row is rewritten only if it waits for the new key; it is skipped only if the new key opens it; a failure names an unreadable row or a lost write. |
| KeyMigration.Account.MigrateTableRows | src-tauri/src/migration.rs:273-308 | However it ends, exactly the rows reported as done carry the new key, one durable write each; it completes exactly with every waiting row done, no unreadable row, and the count of rows done. |
| KeyMigration.Account.MigrateAllTables | src-tauri/src/migration.rs:312-406 | Above the row limit nothing is touched; otherwise completion means that every secret under the legacy key is under the new one with its plaintext, no other row has changed, and the result is how many moved; a failure names a row neither key opens. |
| KeyMigration.ScanVisitsSecrets | src-tauri/src/migration.rs:325-403 | The scan visits exactly the filled secrets, table by table, and the limit is 10,000. |
| KeyMigration.Account.MigrateAccountEncryption | src-tauri/src/migration.rs:428-466 | The database left behind is exactly that of one of the named stages, the outcome is one that stage allows, and the durable writes spent are exactly those the stage needs. |
| KeyMigration.Account.MigrateKeyDerivation | src-tauri/src/migration.rs:473-502 | The same for a whole attempt including the salt: an existing salt is used and kept, a missing one is drawn and stored first, and nothing is written without a sentinel or pkey. |
| KeyMigration.Account.DecryptWithPassword | src-tauri/src/migration.rs:695-785 | An unlock leaves a migrated account alone and opens the given ciphertext; otherwise it makes one attempt within its durable writes, cut off exactly where they run out, and opens the pkey stored after it; the session key is installed once the salt is known, whatever the pkey then does. |
| KeyMigration.Account.SaveEvent | src-tauri/src/db/messaging.rs:1199-1248 | A new event is stored, texts, captions and edits sealed under the session key and nothing sealed without one; a known id stays as it is. |
| KeyMigration.SavedAs | src-tauri/src/db/messaging.rs:1209-1217 | New events of kinds 14, 15 and 16 are stored sealed under the session key and not at all without one; any other kind is stored as it is. |
| MigrationRuns.LegacyAccountIsRecoverable | src-tauri/src/migration.rs:86-90 | An account never migrated, wholly under the legacy key, satisfies the invariant all histories keep. |
| MigrationRuns.WrongPinOnlyStoresSalt | src-tauri/src/migration.rs:411-436 | A wrong PIN changes no row, marker or sentinel; at most it stores a salt where there was none. |
| MigrationRuns.SaltIsNeverReplaced | src-tauri/src/migration.rs:483-489 | No attempt, however it ends and whatever the PIN, replaces a stored salt. |
| MigrationRuns.AttemptKeepsRecoverable | src-tauri/src/migration.rs:428-502 | Every end of every attempt keeps all scanned rows open to their plaintexts, and version 2 with the flag clear means every scanned row and the sentinel are under the new key. |
| MigrationRuns.HistoryKeepsRecoverable | src-tauri/src/migration.rs:428-502 | The same after any number of attempts with any PINs, each cut off anywhere. |
| MigrationRuns.UnlockAfterAnyHistory | src-tauri/src/migration.rs:695-785 | After any such history, an unlock with the right PIN returns the original secret if and only if the account is migrated, or its rows are within the limit and the unlock may make the writes that remain (one per waiting row, four markers, and the salt if missing); otherwise it reports the limit or was cut off. |
| MigrationRuns.OwnerAttemptEnds | src-tauri/src/migration.rs:312-323 | The owner's attempt completes if and only if the row count is within the limit and its writes suffice. |
| MigrationRuns.CompletedMigrationMovesSecrets | src-tauri/src/migration.rs:428-466 | A completed attempt has moved every secret under the legacy key to the new key with its plaintext, touched no other row, and reports how many it moved, at most 10,000. |
| MigrationRuns.WrongPinNeverOpens | src-tauri/src/migration.rs:728-785 | After any history a wrong PIN gets no secret back, opens no scanned row (pkey, seed or other) with any salt, and leaves the account recoverable. |
| MigrationRuns.AttemptDrainsWaiting | src-tauri/src/migration.rs:273-308 | An attempt with the owner's PIN only takes rows off the waiting list, changes exactly the rows it takes off, never more than the limit; a completed one reports how many were waiting and leaves none. |
| MigrationRuns.HistoryConverges | src-tauri/src/migration.rs:294-308 | Over any history the waiting rows only shrink, and after a completed attempt there are none at any later time. |
| MigrationRuns.LaterAttemptsReencryptNothing | src-tauri/src/migration.rs:295-298 | Any attempt completed after a completed one returns 0. |
| MigrationRuns.NewKeyOpensEverythingIff | src-tauri/src/migration.rs:375-389 | After a completed attempt every ciphertext of the account is under the new key if and only if those outside the scan already were. |
| SessionHistory.CaptionsNeverLegacy | src-tauri/src/db/messaging.rs:1209-1217 | Over every history of unlocks with any PINs, saves and locks, each cut off anywhere, no caption is ever sealed under a legacy key. |
| SessionHistory.LegacyAccountIsOwned | src-tauri/src/migration.rs:86-90 | An account never migrated, with nothing sealed outside the scan, satisfies the invariant the next row starts from. |
| SessionHistory.EverythingOpensIff | src-tauri/src/migration.rs:428-466 | Over every history, as long as texts are sealed under the account's own new key every saved text is recoverable, and in a migrated account the new key opens every ciphertext, captions included, if and only if no text was ever sealed under another. |
| SessionHistory.SavedCaptionStays | src-tauri/src/migration.rs:222-231 | A row outside the scan is the same at every later point of any history. |
| SessionHistory.UnlockInstallsForeignKeyIff | src-tauri/src/migration.rs:733-738 | An unlock whose migration does not fail leaves a session key that does not open the account exactly when the PIN is wrong and the account is migrated, and one that does exactly when it returns the secret; any other leaves the session as it was. |
| SessionHistory.SaveKeepsReadableIff | src-tauri/src/db/messaging.rs:1209-1217 | A newly saved text keeps the account readable with its new key exactly when the session key is that key. |
| Sorting.SortedPermutation | src-tauri/src/message.rs:257-258 | Two sorted arrangements of the same elements are equal when keys tell elements apart. |
| Sorting.SortKeepsTies | src-tauri/src/message.rs:257-258 | The sort leaves elements of equal key in their order of arrival. |
| EditHistory.Message.ApplyEdit | src-tauri/src/message.rs:233-269 | One incremental edit keeps the history equal to the batch description of all deliveries: original first, then the first delivery of each id sorted stably by time; content is the last entry's; it reports whether it took effect. |
| EditHistory.DeliverStep | src-tauri/src/message.rs:233-269 | One more delivery against the sorted history equals sorting the whole arrival order again, or is refused when its id is known. |
| EditHistory.LatestEditShows | src-tauri/src/message.rs:251-264 | An edited message shows its latest edit, the last delivered among equals; the history is the original, then the effective edits by time, those of one time as they came. |
| EditHistory.WindowIsAMinute | src-tauri/src/message.rs:564-578 | Only the author edits, from the message's own second to the end of the 60th after it. |
| EditHistory.ReceiptWindowIsAMinute | src-tauri/src/message.rs:583-588 | An edit must be received within a minute of its original, may come before it, and both receipts must be valid. |
| EditHistory.AcceptedAreFirstDeliveries | src-tauri/src/message.rs:234-240 | The edits that take effect are exactly the first deliveries of each id, each once, those of the message's own id aside. |
| EditHistory.OrderDoesNotMatter | src-tauri/src/message.rs:257-264 | With distinct times, any two delivery sequences of the same edits, in any order and with repeats, give the same history and content. |
| EditHistory.OrderIsFreeIff | src-tauri/src/message.rs:257-258 | Every order of the same edits, with any repeats, gives one history if and only if their times are distinct. |
| EditHistory.TiesShowArrivalOrder | src-tauri/src/message.rs:257-258 | Two edits of one time delivered first head that time's entries in the history, in the order they came, whatever follows. |
| EditProtocol.SqlAgreesWithMemory | src-tauri/src/db/messaging.rs:1623-1651 | The join the database evaluates admits exactly the edits of this message that the in-memory rule of history reconstruction does, and none when a legacy row exists. |
| EditProtocol.StampIs | src-tauri/src/db/messaging.rs:1688-1718 | An edit counts at its signed second plus its millisecond tag, if that is under a thousand. |
| EditProtocol.AuthorizedIsAccepted | src-tauri/src/message.rs:226-229 | What the database authorises the live message accepts, exactly when it is not a structured message. |
| EditProtocol.ReadBackIs | src-tauri/src/db/messaging.rs:1688-1718 | Reconciliation reads back exactly the saved authorised edits, oldest signature first. |
| EditProtocol.NextKeepsSafe | src-tauri/src/message.rs:815-875 | Every step of every task keeps saved rows unique by id and permanent, the first receipt fixed, and every edit held or applied saved and authorised. |
| EditProtocol.EveryAppliedEditIsAuthorized | src-tauri/src/message.rs:824-875 | In every interleaving of intake, persistence, reconciliation and local edits, every edit in the live history is a saved, authorised edit. |
| EditProtocol.NextKeepsCovered | src-tauri/src/message.rs:815-875 | Every step keeps each saved authorised edit applied or in the hands of a task that will apply it. |
| EditProtocol.FirstIntakeIsKept | src-tauri/src/message.rs:865-875 | The first task to save an edit leaves its row, with its chat and receipt, among the saved ones for good, and no other row ever carries that id. |
| EditProtocol.FirstReceiptIsKept | src-tauri/src/message.rs:815-823 | The first task to save the original fixes its receipt for good, unless an edit already carries its id. |
| EditProtocol.EveryIntakeIsKeptAndApplied | src-tauri/src/message.rs:815-875 | In a finished run, for every edit id a task was to save, the first row saved under it is saved still, and is in the live history if the database's rule admits it against the original's receipt. |
| EditProtocol.FinishedRunAppliesEachEditOnce | src-tauri/src/message.rs:815-875 | Once all tasks finish, the live history holds exactly the saved authorised edits, each once, whichever of edit and original came first. |
| EditProtocol.FinishedRunsAgree | src-tauri/src/message.rs:815-875 | Two finished runs that authorise the same edits at distinct times show the same history and content, however they interleaved. |
| EditProtocol.LiveChat.ReconcileMessageEdits | src-tauri/src/message.rs:825-859 | Reconciling hands the target exactly those read-back edits it accepts, in order, nothing to any other message, and reports a change exactly when one took effect. |
| EditProtocol.HandedIsDelivered | src-tauri/src/chat.rs:66-76 | The state machine's apply step hands over what the reconcile loop delivers. |
| JoinInboxSpec.RotationArrivesInAnyOrder | src-tauri/src/join_inbox.rs:977-1003 | A rotation's meta, rotation notice and key share, in any order with any repeats, leave the same row and the same usable secret on a device listed before and after. |
| JoinInboxKeys.KeyArrivesIff | src-tauri/src/join_inbox.rs:1007-1142 | All orders, with any repeats, of an announcement and a share, and of a rotation's notice besides, leave a listed device with a usable key if and only if its row is not in the way and it has that key already or no order makes it refuse the share; whatever row and secret it starts from. |
| JoinInboxKeys.EarlyShareIsLost | src-tauri/src/join_inbox.rs:1133-1137 | A device that holds the row without being listed has no usable key after share then announcement, and has one after announcement then share. |
| JoinInboxOrder.TopEpochWins | src-tauri/src/join_inbox.rs:1062-1100 | After any public messages from an empty row, the epoch is the greatest delivered and the inbox that of its first delivery. |
| JoinInboxOrder.ReplicasAgree | src-tauri/src/join_inbox.rs:1062-1100 | Two devices that saw the same messages in any order agree on epoch and inbox when one inbox is named at the greatest epoch. |
| JoinInboxOrder.InboxOrderFreeIff | src-tauri/src/join_inbox.rs:1062-1100 | All orders of some public messages agree on epoch and inbox if and only if one inbox is named at the greatest epoch. |
| JoinInboxOrder.LastListWins | src-tauri/src/join_inbox.rs:1072-1091 | The holders are those of the last non-empty list delivered for the winning inbox at the greatest epoch, whatever else is delivered. |
| JoinInboxOrder.RowOrderFreeIff | src-tauri/src/join_inbox.rs:1062-1100 | All orders of some public messages, notices and announcements without holders included, end in the same row if and only if those at the greatest epoch name one inbox and, unless nobody is listed anywhere, one of them is a list that settles the rest: no other list, nothing later, no empty announcement at another time. That list is the row. |
| JoinInboxSpec.HoldersAreNeverEmptied | src-tauri/src/join_inbox.rs:1085-1091 | No sequence of deliveries empties a non-empty holder list or lowers the epoch. |
| JoinInboxSpec.ShareKeepsTracksIff | src-tauri/src/join_inbox.rs:1127-1141 | A key share keeps the secret no older than its row exactly when it is refused or not older than the row. |
| JoinInboxSpec.MetaKeepsTracksIff | src-tauri/src/join_inbox.rs:1076-1081 | A public message keeps it exactly unless it creates the row over an older secret. |
| JoinInboxCommands.CommandKeepsTracks | src-tauri/src/join_inbox.rs:776-1004 | No local command leaves a secret older than its row. |
| JoinInboxCommands.CommandKeepsSoundRow | src-tauri/src/join_inbox.rs:859-1004 | No local command empties the holder list or lists a holder twice. |
| JoinInboxCommands.RefusedIff | src-tauri/src/join_inbox.rs:488-503 | Each command succeeds exactly under its own conditions of membership, listing, local key and consistency; a stranger may not mint, only members are added, the last holder stays. |
| JoinInboxCommands.OwnRowAfter | src-tauri/src/join_inbox.rs:565-1004 | What each command leaves its actor: who is listed, inbox, epoch, time and secret, with the removed holder and only they gone, the secret gone exactly when the actor left. |
| JoinInboxCommands.AnnouncedRowArrives | src-tauri/src/join_inbox.rs:887-901 | What a command announces is its own new row: a device that held the actor's old row, or none when there was none, holds the new one after receiving it in any order with repeats. |
| JoinInboxCommands.SecretNeverOlderIff | src-tauri/src/join_inbox.rs:1076-1141 | Over every run of commands and deliveries, each cut off anywhere, no secret is ever older than its row if and only if no late share is taken and no first row is written over an older secret. |
| JoinInboxCommands.LateShareReplacesNewerKey | src-tauri/src/join_inbox.rs:1127-1141 | A share of an earlier epoch takes the place of a usable key and leaves none. |
| JoinInboxCommands.FirstRowKeepsOlderKey | src-tauri/src/join_inbox.rs:1062-1083 | A first row of a later epoch leaves an older secret stored. |
| JoinInboxCommands.CutKeepsNotOlder | src-tauri/src/join_inbox.rs:967-975 | A command cut off between its writes leaves no secret older than its row either. |
| JoinInboxCommands.RedeliveryCompletes | src-tauri/src/join_inbox.rs:1076-1100 | A public message cut off between its writes has its whole effect when delivered again. |
| JoinInboxCommands.RetryCompletesIff | src-tauri/src/join_inbox.rs:672-1004 | Repeating a command that lost its second write has its whole effect exactly for minting, rotating, deleting and a reclaim at the last epoch. |
| JoinInboxCommands.InterruptedReclaimIsLost | src-tauri/src/join_inbox.rs:735-752 | A reclaim that lost its second write leaves no usable key and does nothing when repeated. |
| JoinInboxCommands.HoldersStaySound | src-tauri/src/join_inbox.rs:859-1101 | Over every run with sound remote lists, each event cut off anywhere, the row lists at least one holder, each once. |
| JoinInboxCommands.MintingLeavesUsableKey | src-tauri/src/join_inbox.rs:607-642 | Minting, rotating and reclaiming leave the actor with a key that opens exactly the inbox it announces. |
| JoinInboxCommands.RotationSharesOncePerHolder | src-tauri/src/join_inbox.rs:937-1003 | A rotation keeps its actor, keeps exactly the holders still members, and sends each of the others exactly one share. |
| JoinInboxCommands.RotationReachesEveryHolder | src-tauri/src/join_inbox.rs:977-1003 | End to end: any other listed device that receives what a rotation sends it, in any order, can act for the new inbox and holds the sender's row. |
| JoinInboxCommands.AddedHolderCanUseShareIff | src-tauri/src/join_inbox.rs:795-856 | Whatever the new holder's device holds, all orders of what adding them sends leave it with a key for the inbox if and only if it has that key already, or the sender's own key opens the inbox and no row of theirs, none being newer or of another inbox at that epoch, fails to list them. |
| JoinInboxCommands.RotationReachesIff | src-tauri/src/join_inbox.rs:937-1003 | Whatever a remaining holder's device holds, all orders of what a rotation sends leave it with the new key if and only if it has that key already or its row, not newer nor of another inbox at that epoch, lists it beforehand. |
| JoinInbox.JoinInboxTables.ApplyMeta | src-tauri/src/join_inbox.rs:1007-1101 | Row and secret become what delivery of the message means, or what its first write does when the second is lost; no other squad's change, and it reports whether the row was written. |
| JoinInbox.JoinInboxTables.ApplyKeyShare | src-tauri/src/join_inbox.rs:1103-1142 | A share is stored exactly when its key opens its inbox and no row excludes this device. |
| JoinInbox.JoinInboxTables.InboxKeysForHolder | src-tauri/src/join_inbox.rs:515-548 | Keys are handed out exactly when the row lists this device and the secret matches the row's inbox and epoch and opens it. |
| JoinInbox.JoinInboxTables.InitInbox | src-tauri/src/join_inbox.rs:565-642 | Minting is idempotent, refused to a known non-creator, and does what the command model says, wherever its writes stop, to this squad alone. |
| JoinInbox.JoinInboxTables.AddInboxHolder | src-tauri/src/join_inbox.rs:776-856 | Adding a holder does what the command model says, refusals and a lost write included, to this squad alone. |
| JoinInbox.JoinInboxTables.RemoveInboxHolder | src-tauri/src/join_inbox.rs:859-920 | Removing a holder does what the command model says, row before secret: the last holder stays, leaving oneself drops the secret, and the row announced is the one after the removal. |
| JoinInbox.JoinInboxTables.RotateInboxKey | src-tauri/src/join_inbox.rs:923-1004 | Rotating does what the command model says, secret before row: members-only holders, next epoch, fresh key, announcements and shares, and nothing announced when a write is lost. |
| JoinInbox.JoinInboxTables.ReclaimInboxIfSplit | src-tauri/src/join_inbox.rs:672-773 | Reclaiming acts only on a same-epoch split and moves the row to the secret's inbox at the next epoch. |
| JoinInbox.JoinInboxTables.DeleteInboxRows | src-tauri/src/join_inbox.rs:145-164 | Deleting removes this squad's secret, then its row, and no other's. |
| Timeline.Unread | src-tauri/src/lib.rs:547-565 | The unread count is a suffix free of own messages and of the watermark, bounded by a message that stops it. |
| Timeline.UnreadIsLongest | src-tauri/src/lib.rs:547-565 | No longer suffix is free of own messages and of the watermark. |
| Timeline.UnreadAfterInsert | src-tauri/src/chat.rs:96-123 | Inserting raises the count by one exactly when an incoming message lands inside the unread suffix; below it nothing changes; an own message or the watermark cuts the count where it lands. |
| Timeline.Chat.BinarySearch | src-tauri/src/chat.rs:113-119 | The search yields a message of that time, or the only place between earlier and later ones. |
| Timeline.Chat.InternalAddMessage | src-tauri/src/chat.rs:96-123 | Append, prepend and search paths all make one sorted insert of an unknown id, and a known id changes nothing. |
| Timeline.Chat.SetAsRead | src-tauri/src/chat.rs:79-91 | The watermark moves to the newest incoming message if there is one; afterwards, moved or not, nothing is unread, exactly unless the newest message is incoming with an empty id. |
| Timeline.Chat.CountUnread | src-tauri/src/lib.rs:547-565 | The backward walk returns the length of the longest unread suffix. |
| Timeline.TimelineHoldsFirstArrivals | src-tauri/src/chat.rs:96-123 | After any arrivals the timeline is sorted, has unique ids and holds exactly the first arrival of each id. |
| Timeline.ChatState.AddMessageToChat | src-tauri/src/lib.rs:453-487 | The list keeps its chats, gains the missing one as a direct chat exactly for an npub, keeps distinct ids; only the addressed chat's messages change, by one add; and no message of a chat is later than every message of a chat before it, so chats without messages come last. |
| Timeline.RecencyIsByLatest | src-tauri/src/lib.rs:476-484 | The sort key orders two chats by their latest messages, newest first. |
| Timeline.LastIsGreatest | src-tauri/src/chat.rs:56-58 | A sorted chat's last message carries its greatest time, so the list order is by greatest message time. |
| CatchUp.EntryKeepsIdentity | src-tauri/src/catch_up.rs:104-121 | Over every run a living row keeps its id, kind, chat and creation time. |
| CatchUp.OnlyReopenReopens | src-tauri/src/catch_up.rs:629-650 | A resolved row stays resolved, at the same time, unless an action-needed record reopens that source. |
| CatchUp.RowsStayUntilRemoved | src-tauri/src/catch_up.rs:342-374 | A row lives until a deletion names its chat. |
| CatchUp.WelcomeIsNewOnce | src-tauri/src/catch_up.rs:224-230 | Between deletions a recorded welcome is reported new by exactly one operation. |
| CatchUp.CatchUpStore.InsertEntry | src-tauri/src/catch_up.rs:104-121 | A source gets a row at most once, and the result says whether it did now. |
| CatchUp.OpMeans | src-tauri/src/catch_up.rs:104-374 | What each operation makes of each source's row: a reopen opens a resolved one, a deletion removes exactly the named chats' rows, marking a chat closes its open mentions and direct messages, resolving reminders those of one event. |
| CatchUp.CatchUpStore.ResolveEntry | src-tauri/src/catch_up.rs:265-277 | Only an open row of that source is resolved, and the result says whether one was. |
| CatchUp.CatchUpStore.ResolveChatMessageEntries | src-tauri/src/catch_up.rs:305-316 | The open mentions and direct messages of one chat are resolved, and nothing else. |
| CatchUp.CatchUpStore.RecordOrReopenActionNeeded | src-tauri/src/catch_up.rs:629-650 | A known source is reopened with its identity kept; an unknown one is recorded open. |
| CatchUp.CatchUpStore.DeleteEntriesForChats | src-tauri/src/catch_up.rs:342-374 | Exactly the rows of the named chats go. |
| CatchUp.CatchUpStore.ListUnresolved | src-tauri/src/catch_up.rs:381-433 | Each open row of the given kind and chats, if given, is listed once, newest first, and no other. |
| CatchUp.MarkAsRead | src-tauri/src/chat.rs:358-390 | It succeeds exactly for a loaded chat (with an incoming message, if none is named) and resolves that chat's message entries exactly then; the watermark becomes the named message, or leaves nothing unread when none is named, and stays when it fails. |
| CatchUp.MarkLeavesNoOpenMessages | src-tauri/src/catch_up.rs:305-316 | After a mark the open set is the old one less exactly the chat's mentions and direct messages. |
| CatchUp.ResolveAll | src-tauri/src/catch_up.rs:580-620 | It closes exactly the listed other entries and the open messages of the listed chats that could be marked, keeps every row's identity, leaves nothing unread in the chats it marked and every other watermark as it was, and returns how many were listed. |
| CatchUp.ResolveAllIsExactIff | src-tauri/src/catch_up.rs:580-620 | What is closed is exactly the listing if and only if every listed message chat can be marked and holds no open message outside the listing. |
| CatchUp.FilteredListingIsExactIff | src-tauri/src/catch_up.rs:573-620 | When each chat gets one kind of message entry, resolving any filtered listing is exact if and only if each listed message chat can be marked. |
| CatchUp.UnloadedChatStaysOpen | src-tauri/src/catch_up.rs:580-620 | A listed message of a chat that is not loaded stays open. |
| Broadcasts.BroadcastBoard.UpsertRow | src-tauri/src/commons.rs:291-344 | A new event id is cached; a known one keeps key and creation time and takes the new expiry and cancellation. |
| Broadcasts.BroadcastBoard.BestPerKey | src-tauri/src/commons.rs:444-456 | The fold holds one row for each key with a live row, and no live row of the key is newer. |
| Broadcasts.BroadcastBoard.ListActive | src-tauri/src/commons.rs:423-466 | The feed is newest first and at most the limit; each row is unexpired, no tombstone, and has no newer unexpired row of its author and subject; with distinct times per key only older rows beyond the limit are missing. |
| Broadcasts.BroadcastBoard.FindActive | src-tauri/src/commons.rs:769-790 | The retraction finds the newest live row of the subject that is not a tombstone, if there is any. |
| Broadcasts.BroadcastBoard.Cancel | src-tauri/src/commons.rs:738-828 | Nothing changes when the subject has no live row other than tombstones; otherwise a tombstone of the newest such row, with a fresh expiry of the same duration, is cached and the board pruned, also when the same event is signed again. |
| Broadcasts.TombstoneIs | src-tauri/src/commons.rs:796-800 | A tombstone is the same broadcast, cancelled, expiring its duration from now. |
| Broadcasts.HiddenForGoodIff | src-tauri/src/commons.rs:281-289 | Left to expiry and pruning, a key can appear at no later time if and only if each of its live broadcasts has a strictly newer row of the key that lasts as long. |
| Broadcasts.RetractedStaysHidden | src-tauri/src/commons.rs:281-360 | From a retraction that meets that condition, the key stays out of the feed over every history of ingests, expiry and pruning, replays included, until a row comes that is not older than the tombstone or outlives it. |
| Broadcasts.RetractionHidesIff | src-tauri/src/commons.rs:796-800 | A retraction hides its key for good if and only if, before the call, each live broadcast of the key is shadowed, or older than the tombstone and outlived by it. |
| Broadcasts.LongerBroadcastResurfaces | src-tauri/src/commons.rs:444-465 | After retracting a short broadcast published over a long one, the long one is in the feed again once the tombstone has expired. |
| Broadcasts.IngestKeepsCoveredIff | src-tauri/src/commons.rs:349-360 | Ingesting an event not cached keeps a hidden key hidden exactly unless it is a live broadcast that nothing shadows. |
| Broadcasts.OnlyBroadcastIsRetired | src-tauri/src/commons.rs:555-567 | Retracting the only live broadcast of a key, published here earlier and signed in an earlier second, meets that condition. |
| Broadcasts.SameSecondIsNotRetired | src-tauri/src/commons.rs:444-456 | A tombstone signed in the broadcast's own second does not meet it, and the broadcast stays among the newest. |
| Broadcasts.IngestOrderFreeIff | src-tauri/src/commons.rs:291-360 | Devices that received the same events, in any orders with any repeats, hold the same rows if and only if an event id names one row. |
| CommonsWire.NormalizeCommonsTags | src-tauri/src/commons.rs:116-142 | The loop yields the tags, or the first error, of the specification function, and never an empty list. |
| CommonsWire.NormalizedAre | src-tauri/src/commons.rs:116-142 | Accepted tags are well formed, none twice, at most three besides the reserved one. |
| CommonsWire.TypedTagIsAccepted | src-tauri/src/commons.rs:102-114 | However a tag is typed, in any case, behind any hash signs, between any spaces, it is accepted as itself. |
| CommonsWire.AcceptedTagIsTyped | src-tauri/src/commons.rs:102-114 | Nothing else is accepted. |
| CommonsWire.TagsAre | src-tauri/src/commons.rs:103-112 | A tag is 1 to 32 lower-case letters, digits and underscores. |
| CommonsWire.SpacesAndLetters | src-tauri/src/commons.rs:103-112 | The characters that are trimmed, and those that lower-case to one of a tag. |
| CommonsWire.TagListIsAcceptedIff | src-tauri/src/commons.rs:116-142 | A list is accepted exactly when it is not empty, each item is a tag, and at most three tags remain besides "new"; what is kept is each tag. |
| CommonsWire.NormalizeTagIdempotent | src-tauri/src/commons.rs:102-114 | A well-formed tag normalises to itself. |
| CommonsWire.NormalizeTagsIdempotent | src-tauri/src/commons.rs:116-142 | Normalising accepted tags again returns them. |
| CommonsWire.DecimalRoundTrip | src-tauri/src/commons.rs:722 | Every 64-bit expiry survives its decimal tag. |
| CommonsWire.PublishedIsSound | src-tauri/src/commons.rs:515-568 | Whatever publishing accepts satisfies everything the parser asks of a wire. |
| CommonsWire.PublishedSaysWhatWasAsked | src-tauri/src/commons.rs:515-568 | When publishing refuses, exactly, and that what it publishes says what was asked: subject, message, duration, expiry, tags, audience and squad. |
| CommonsWire.TombstoneSays | src-tauri/src/commons.rs:794-800 | A retraction repeats the broadcast, cancelled, for its duration from now. |
| CommonsWire.ParsedIsSound | src-tauri/src/commons.rs:171-237 | Whatever the parser hands on does too, so it can be rebuilt and read again. |
| CommonsWire.ParsesIff | src-tauri/src/commons.rs:171-237 | Any event, however built, is taken exactly when its wire is sound once normalised, its tags agree with it, and its expiry is neither past nor more than a minute off; what is taken is that wire from that signer. |
| CommonsWire.ParseOfBuiltIff | src-tauri/src/commons.rs:717-730 | Parsing a built event returns the very wire and author if and only if it is unexpired and signed within 60 seconds of the time its expiry assumes; otherwise it returns nothing. |
| CommonsWire.PublishAndRetractRoundTrip | src-tauri/src/commons.rs:738-828 | A published broadcast and its tombstone both read back as the wires they were built from. |
| Polls.PollReplica.InsertPollCreate | src-tauri/src/dashboard_poll.rs:123-176 | The first create of a poll stays; a repeat is told apart from a conflict by its payload digest. |
| Polls.PollReplica.ApplyVote | src-tauri/src/dashboard_poll.rs:186-234 | A vote counts only for a known poll of that parent and one of its options; it takes the place of the voter's row unless older, no other voter's row changes, and every row stays consistent. |
| Polls.OneRowPerVoter | src-tauri/src/dashboard_poll.rs:213-233 | After any votes each voter has one row per poll, exactly if they cast an admissible vote there, and it holds the option, event and time of their latest one. |
| Polls.VotersOfAre | src-tauri/src/dashboard_poll.rs:285-317 | The voters counted for an option are exactly those whose latest admissible vote names it. |
| Polls.AdmissibleIff | src-tauri/src/dashboard_poll.rs:192-211 | A vote is admissible exactly when its poll is known, is its parent's, and lists its option. |
| Polls.PollReplica.Tally | src-tauri/src/dashboard_poll.rs:285-317 | Each listed option shows the number of voters whose current vote names it; the shown tallies sum to at least the poll's voters, and to exactly that if and only if every chosen option is listed once. |
| Polls.GroupByOption | src-tauri/src/dashboard_poll.rs:291-308 | The grouped counts hold exactly the chosen options, each with its number of voters. |
| Polls.CastingKeepsConsistent | src-tauri/src/dashboard_poll.rs:186-234 | After any votes every vote row names a known poll and one of its options. |
| Polls.BallotHoldsWinner | src-tauri/src/dashboard_poll.rs:213-233 | After any votes a voter's row is their latest admissible vote, the last delivered among equal times, and there is none exactly if they cast none. |
| Polls.ReplicasConverge | src-tauri/src/dashboard_poll.rs:213-233 | Any two orders of the same votes, repeats included, give the same rows when each ballot's latest admissible votes say the same. |
| Polls.VoteOrderFreeIff | src-tauri/src/dashboard_poll.rs:213-233 | All orders of some votes give the same rows if and only if the latest admissible votes of each ballot say the same. |
| Polls.OrderMattersIff | src-tauri/src/dashboard_poll.rs:213-233 | Two votes of one voter commute exactly when their times differ or their rows are equal. |
| Polls.StreamCountsTimely | src-tauri/src/dashboard_poll.rs:186-205 | Over any stream of creates and votes, a replica's votes are those its timely votes alone would leave. |
| Polls.StreamLosesNothingIff | src-tauri/src/dashboard_poll.rs:186-233 | A stream leaves the rows it would leave with every create first if and only if each vote its poll admits is overtaken by a timely vote of the same voter. |
| Polls.EarlyVoteIsLostIff | src-tauri/src/dashboard_poll.rs:186-205 | A vote before its poll leaves the rows of the vote after it exactly when the poll does not admit it. |
| Polls.StreamsConverge | src-tauri/src/dashboard_poll.rs:123-234 | Replicas that saw the same creates and votes in orders that lose nothing hold the same polls and votes when each ballot's latest votes say the same. |
| Polls.StreamOrderFreeIff | src-tauri/src/dashboard_poll.rs:123-234 | All orders of some creates and votes that lose nothing leave the same replica if and only if each ballot's latest votes say the same. |
| Polls.TalliesCountVotersIff | src-tauri/src/dashboard_poll.rs:285-317 | The tallies account for every voter, and sum to the number of voters if and only if every chosen option is listed once. |
| LegacyRename.Directory.RenameLegacySqliteFile | src-tauri/src/account_manager.rs:115-143 | Nothing happens when a current main file exists or no legacy one does; otherwise it completes the move, or stops with power lost after none, one or both companions and before the main file. |
| LegacyRename.ResumeReachesSameEnd | src-tauri/src/account_manager.rs:115-143 | Running again after an interruption reaches what an uninterrupted move reaches. |
| LegacyRename.InterruptionsLeaveNoTrace | src-tauri/src/account_manager.rs:115-143 | However many attempts were interrupted, the end is the same, and a further run changes nothing. |
| LegacyRename.MovedIntactIff | src-tauri/src/account_manager.rs:115-143 | The moved database is made of exactly the legacy files if and only if no stray companion stood under a current name without a legacy counterpart; no legacy name stays, no other file changes. |
| LegacyRename.MigrateLegacyMlsStore | src-tauri/src/account_manager.rs:160-193 | The live store and each archive is moved or left resumable on its own; a failure on one stops no other. |

## Left out

- Key derivation, nonces and hex: the ideal cipher stands for them. The sentinel's read-back check after its update cannot fail under it and is not a step.
- The salt's file cache, `encrypt_with_password` and `decrypt_seed_fallback`: an unlock that would reach the seed ends as `SeedFallback`; the theorems show the owner's never does, and that a wrong PIN opens no seed either.
- Errors of the database other than a lost write (a failing read, a locked file) are not told apart from one.
- SQL text, JSON, connection pooling, Tauri events, relay and MLS networking, gift wraps, uploads.
- Trimming, `npub1` filters and missing-field errors when join-inbox and poll payloads are decoded: messages are taken as decoded. A poll's digest is a given value.
- No other message is interleaved between the awaits of a join-inbox command, and a command sees one membership snapshot.
- Edits of one message are followed from when it enters memory without history; reloading a message whose history the database rebuilt is not a step. `preview_metadata` and the emitted updates are not modelled.
- FinishedRunAppliesEachEditOnce: assumes the original is in memory before it is saved, as the receive paths place it, and that a structured message does not carry kind 14 or 15, which no constructor gives it.
- HoldersStaySound: assumes remote lists name each holder once and a row is not first created without holders, since nothing checks either on receipt.
- StreamOrderFreeIff: assumes one payload for each poll id; of two payloads the first to arrive stays.
- IngestOrderFreeIff: pruning, which depends on each device's clock, comes after.
- RetractedStaysHidden: assumes that an event id names one row, so an event ingested again brings the row it has; the feed is taken with every row that may be chosen among equals.
- ListActive: among live rows of one key created in the same second the choice is the engine's, so completeness is stated for distinct times.
- Tag normalisation: lower-casing covers the characters that can yield a tag character; all others fail the check either way.
- Unread: counts are unbounded, where the source uses 32 bits.
- Skips for muted chats and blocked peers, badge counts, typing indicators, notification levels.
- Sync and history paging, voting on and announcing polls, the publish cooldown: they call the modelled functions without further state of their own.
- The unlock diagnostic, exports, images, deep links, audio and the development login.
