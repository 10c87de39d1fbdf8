# A model of the mail bridge

The bridge lets an ordinary mail program read and write an end-to-end encrypted
mail account. It polls the account, tells an IMAP library what changed, keeps its
secrets in the system keychain and in sealed files, and seals outgoing mail for
every recipient. This project models those parts and proves what each promises.
`dafny verify dfyconfig.toml` checks all of it.

## The modules

| component | modules |
|---|---|
| syncing the account | `Snapshot`, `SyncModel`, `Announce`, `Bounds`, `Finishing`, `Progress`, `Connector`, `Replay`, `SyncRuns`, `Poller` |
| AES key wrap | `KeyWrap` |
| the credential store | `Tiers`, `StoreModel`, `Store` |
| control frames | `Frame`, `Senders` |
| attachments and base64 | `Base64`, `Attachments`, `Stripper` |
| the mail service's memories | `Threads`, `Fetches`, `SentCopies`, `MailService` |
| sealing outgoing mail, and serving it | `Recipients`, `Envelope`, `Delivery` |
| shared | `Bytes` |

**Syncing.** `Connector` has the connector object: its maps, its scan, the workers
that download a folder and their shared batch, the deletions. Its methods are proved
against `SyncModel`, where one sync is a function of what the account answered, how
the download workers interleaved and the order the deletions went out in. Theorems
over whole runs are stated there. A worker's life is a few atomic steps (append under
the lock, take the full batch under the lock, send), and `Announce` proves its facts
for every legal list of steps, so for every schedule; `Bounds` says how large batches
get, `Finishing` that every download returns. `Replay` is the mail server as seen from
here: a mirror that applies each update in order. `Poller` puts the polling loop, a
running sync with its workers, and the server's `Close` in one machine.

**Key wrap.** The methods work on byte arrays with the indexed double loop of the
source; they are proved equal to the shift-register description of RFC 3394, and the
round trips are proved about that, for any permutation of 16-byte blocks.

**The store.** An operation is the list of single writes it makes to the two devices.
An interrupted operation made a prefix of them. `Store` is the object over devices
that may fail at any access: a write that reports failure may have happened or not.

**The mail service.** `Threads` has what one call for an email does, `Fetches` the calls
as goroutines make them at once: the lookup and the remembering of an answer are a step
each, and other calls and forgets come between them. How many goroutines there are is a
parameter; a sync has eight, and the IMAP library may ask too.

**What pins an answer.** Methods are proved equal to functions, and theorems speak of
those. So that an answer does not rest on its own function alone, each function that
decides a byte, a flag, a key or an address has a lemma that says what it gives in the
terms of its inputs: `KeyWrap.WrapUnderTheIdentity`, `Base64.EncodeExactly`,
`Attachments.RightBlock`, `Threads.Answers`, `SyncRuns.KeptIsShown`,
`Recipients.KeyForExactly`, `Envelope.TheAddresseeReads` and their neighbours.

## What is assumed

- AES on a block is an arbitrary pair of inverse functions. The hybrid key exchange
  and the authenticated cipher appear as functions of their random coins of which only
  what `Envelope.Sound` says is used: decrypting undoes encrypting, and no sealed text is
  empty. `Envelope.SoundCanBe` shows that primitives can meet it.
- How an envelope is written as a text body is a pair of functions of which the second
  undoes the first (`Delivery.TextForm`).
- A sealed file opens under its own data key and under no other; file names are
  derived from keys without collision, so files are indexed by key. The encoding of the
  index is any pair of functions of which the second undoes the first.
- Random keys, the clock, scheduling, stream chunking and device failures are
  parameters or arbitrary choices. Nothing is assumed of them.
- The IMAP library applies updates in order, puts a message created again in a second
  folder in both, ignores an update to a message it does not have, always reads the
  updates channel, and calls the connector's `Close` only after the server stopped the
  poller.
- Every listed message carries a flag that says whether the literal built from it
  parses. Every worker of a download returns nil, as in the source, so the error branch
  around `Wait` is never taken.
- Letter case is ASCII's. `strings.ToLower` and `EqualFold` also fold other letters, and
  differ from each other on a few.
- Integers are unbounded where the source uses `int`; the key-wrap counter and the
  frame length keep their widths.

## What the proofs found

- The largest batch of announced messages is 22, not the 15 the constant suggests: a
  worker that saw a full batch may not have taken it yet while the others append. A
  batch of more than 15 can go out exactly when more than 15 new messages parse and
  two workers may run (`Bounds.OverfullExactly`, `Bounds.LargeBatchesExactly`).
- `sameAs` compares length and one inclusion. That is sound for a remembered list
  exactly when it has no repeats (`Snapshot.SameStateIsSoundExactly`).
- Replaying what the connector sends gives what it remembers exactly when every sync
  keeps every message (`SyncRuns.ReplayReproducesMemory`); `SyncRuns.Kept` and
  `SyncRuns.Settled` say when one is kept. Three things are not kept: a message in
  several folders one of which did not answer or could not serve it; a known message
  listed as changed and then, in the same scan, as it was
  (`SyncRuns.ChangeDuringAScanDrifts`); a new message that moves between two listings of
  one scan, which ends up in both folders (`SyncRuns.MoveDuringAScanDrifts`). None of
  them is repaired by later syncs that list it as remembered
  (`SyncRuns.DriftPersists`). With one folder per email and an account that stands
  still during a scan none of them happens (`SyncRuns.OneFolderReplays`).
- The comment at internal/store/disk.go:59-60 says a new data key without its file is
  harmless. It is, unless a large value replaces another: then the old file can no
  longer be opened (`Tiers.InterruptionLosesExactly`).
- A Remove interrupted between the tiers can bring back an older large value left
  beneath a small one by an earlier failure (`Tiers.RemoveUncoversExactly`).
- Set behaves for every key but the empty one, which it refuses, the index's, the
  index's data key, and the data key of a user's key (`StoreModel.SettableExactly`,
  `Tiers.KeysCollideExactly`).
- A Set that stops before the index leaves a new value that no Clear removes
  (`StoreModel.UnlistedOutlivesClear`), and one that stops while a large index is
  rewritten leaves an index nothing can read, so that Keys, Clear, Set and Remove all
  fail (`StoreModel.StoppedSetIndex`).
- After a send that failed with some of its frame on the wire, but not all, the reader
  is out of step with whoever sends next, and exactly then (`Senders.InStepExactly`).
- `uploadAttachments` declares the sealed length, so such a placeholder is always longer
  than the message it stands for (`Attachments.SealedSizeMoves`).
- A sender who writes to itself without a looked-up key is led to the copy sealed under
  the server's key, not to its own (`Envelope.SenderReadsExactly`).
- The thread cache serves the right email always, in every interleaving of the calls,
  but drops the error of one that does not open when its conversation was remembered
  before the lookup, and exactly then (`Fetches.ErrorIsDroppedExactly`).
- It does not keep a conversation from being asked for twice: calls that overlap can ask
  for it as often as there are goroutines, eight during a sync
  (`Fetches.QuestionsExactly`, `Fetches.AskedOnceExactly`).
- A forget does not reach a call in flight, which fills the cache again afterwards
  (`Fetches.ForgetMissesTheFlight`).

## Model

| member | source | states |
|---|---|---|
| KeyWrap.XorInto | internal/crypto/keywrap.go:53-56 | folding the counter in byte by byte is XorCounter, which the next row says in numbers |
| KeyWrap.XorCounterIsXor | internal/crypto/keywrap.go:53-56 | read as 64-bit numbers, most significant byte first, the register afterwards is the register before xor the counter |
| KeyWrap.StepsAreInverse | internal/crypto/keywrap.go:48-58 | for any block permutation the step of Unwrap undoes the step of Wrap at every counter, and the other way round |
| KeyWrap.WrapStepIsTheSections | internal/crypto/keywrap.go:48-58 | each step is section 2.2.1 register by register, said without the functions of the model: B = AES(K, A and R[1]); A = MSB(64, B) xor t; the registers move along; R[n] = LSB(64, B) |
| KeyWrap.UnwrapStepIsTheSections | internal/crypto/keywrap.go:81-95 | each step back is section 2.2.2 register by register |
| KeyWrap.EncryptRounds | internal/crypto/keywrap.go:46-60 | the nested loops over the arrays are rounds of indexed register updates with t = n*j + i |
| KeyWrap.DecryptRounds | internal/crypto/keywrap.go:81-96 | the nested loops counting down are the indexed updates in reverse order |
| KeyWrap.IndexedWrapIsShift | internal/crypto/keywrap.go:46-60 | the indexed double loop equals the shift-register loop s = 1..6n of section 2.2.1 of RFC 3394, for every key |
| KeyWrap.IndexedUnwrapIsShift | internal/crypto/keywrap.go:81-96 | the same for section 2.2.2 of RFC 3394 |
| KeyWrap.Wrap | internal/crypto/keywrap.go:33-63 | the array code returns what section 2.2.1 defines, or the length error |
| KeyWrap.Unwrap | internal/crypto/keywrap.go:67-103 | the array code returns what section 2.2.2 defines, or the length error, or the integrity error |
| KeyWrap.UnwrapOfWrap | internal/crypto/keywrap.go:33-103 | Unwrap(Wrap(K)) = K for any block permutation and legal length; a wrapped key is 8 bytes longer |
| KeyWrap.WrapOfUnwrap | internal/crypto/keywrap.go:67-103 | whenever Unwrap(W) succeeds with K, K is legal and Wrap(K) = W |
| KeyWrap.UnwrapAcceptsExactlyWrappings | internal/crypto/keywrap.go:98-102 | Unwrap accepts W if and only if W is a result of Wrap |
| KeyWrap.UnwrapRefusesExactly | internal/crypto/keywrap.go:67-103 | it refuses with the length error exactly for lengths under 24 or not divisible by 8, and with the integrity error exactly for what else no key wraps to |
| KeyWrap.WrapUnderTheIdentity | internal/crypto/keywrap.go:33-63 | under the cipher that changes nothing Wrap gives A6A6A6A6A6A6A6A6 xor 1 xor 2 .. xor 6n, then the key; lengths under 16 or not divisible by 8 are refused |
| Announce.StepInv | internal/imapserver/mailconnector/connector.go:147-189 | every atomic step of every goroutine keeps the invariant: batch bound, one copy of every appended message, at most `limit` goroutines |
| Announce.BatchBound | internal/imapserver/mailconnector/connector.go:150-183 | in every interleaving every sent batch is non-empty and holds at most batch - 1 + limit messages |
| Bounds.LargeBatchesExactly | internal/imapserver/mailconnector/connector.go:175-182 | for every configuration some interleaving sends k >= batch messages at once if and only if that many parse and k <= batch - 1 + limit |
| Bounds.OverfullExactly | internal/imapserver/mailconnector/connector.go:150-183 | more than batch messages can go out at once if and only if two workers may run and more than batch parse |
| Bounds.SourceBounds | internal/imapserver/mailconnector/connector.go:33-37 | with 15 and 8, batches of 16 to 22 happen exactly when that many parse, and none is larger; with one worker none exceeds 15 |
| Announce.LastFlushIsPartial | internal/imapserver/mailconnector/connector.go:187-191 | the flush after Wait carries at most batch - 1 messages |
| Announce.EveryMessageOnce | internal/imapserver/mailconnector/connector.go:139-194 | every complete interleaving sends each summary that parses exactly once and nothing else, and counts every body once |
| Finishing.NoDeadlock | internal/imapserver/mailconnector/connector.go:144-193 | every interleaving can be continued to a return, and none has more than 5n + 2 steps |
| Progress.FullOnlyAtTheEnd | internal/imapserver/mailconnector/progress.go:94-99 | the percentage stays within 0..100 and is 100 only when all is done |
| Progress.PercentExactly | internal/imapserver/mailconnector/progress.go:94-99 | the percentage is the whole part of a hundred times the share done |
| Progress.EventGrammar | internal/imapserver/mailconnector/progress.go:37-92 | for any clock: nothing, or Started, strictly climbing progress from (1, total) to (total, total, 100), and one Finished |
| Progress.ReportsExactly | internal/imapserver/mailconnector/progress.go:59-75 | a body reports if and only if it is the last, the first, or came 250 ms or more after the body reported last |
| Progress.HandlersHear | internal/imapserver/mailconnector/progress.go:37-92 | a caller hears nothing without a progress handler, else all events less the start or end it has no handler for; the end tells the bodies counted and the code |
| Progress.ProgressReporter.constructor | internal/imapserver/mailconnector/progress.go:37-50 | reports Started when there is something to report and a handler for it |
| Progress.ProgressReporter.Advance | internal/imapserver/mailconnector/progress.go:59-75 | counts a body, and reports it when last or due |
| Progress.ProgressReporter.Finish | internal/imapserver/mailconnector/progress.go:82-92 | closes the log with Finished and the number of bodies counted |
| Snapshot.SameAs | internal/imapserver/mailconnector/snapshot.go:21-34 | the early-exit loop decides equal flags, equal length and one inclusion |
| Snapshot.SameStateIsSameView | internal/imapserver/mailconnector/snapshot.go:20-34 | on folder lists without repeats that test holds if and only if a client sees no difference; one list without repeats is enough for soundness |
| Snapshot.RepeatsHideAChange | internal/imapserver/mailconnector/snapshot.go:25-32 | whenever a folder is remembered twice, moving the repeat to any new folder passes for no change |
| Snapshot.SameStateIsSoundExactly | internal/imapserver/mailconnector/snapshot.go:20-34 | what passes for unchanged looks unchanged, against every listing, if and only if no folder is remembered twice |
| Connector.MailConnector.RememberMailboxType | internal/imapserver/mailconnector/mutations.go:16-27 | remembers the kind of a typed folder, ignores an untyped one |
| Connector.MailConnector.Reconcile | internal/imapserver/mailconnector/connector.go:214-232 | one listing yields the unknown messages, the updates of changed ones, and the new seen map |
| SyncRuns.UpdatesShowListings | internal/imapserver/mailconnector/connector.go:225-231 | an update of a message says the folders and the read, flagged and draft marks some folder lists of it |
| SyncRuns.CreationsShowListings | internal/imapserver/mailconnector/connector.go:161-183 | an announcement says what its own folder lists of the message, of one that was not known and that parses |
| Connector.MailConnector.ScanMailbox | internal/imapserver/mailconnector/connector.go:198-236 | announces an unknown folder even when listing it then fails |
| Connector.Download.Append | internal/imapserver/mailconnector/connector.go:169-178 | one message enters the shared batch, or none when it does not parse |
| Connector.Download.Take | internal/imapserver/mailconnector/connector.go:150-154 | the whole shared batch moves to the flushing goroutine |
| Connector.Download.Send | internal/imapserver/mailconnector/connector.go:156-158 | a non-empty batch goes out as one update, an empty one does not |
| Connector.MailConnector.AnnounceNewMessages | internal/imapserver/mailconnector/connector.go:139-194 | for every interleaving: what goes out is batches holding every parsing message once, each of 1 to 22, and every body advances the progress once |
| Connector.MailConnector.DownloadNewMessages | internal/imapserver/mailconnector/connector.go:240-259 | all folders are announced and the events are those of one sync over the total |
| Connector.MailConnector.RememberMessages | internal/imapserver/mailconnector/snapshot.go:62-71 | what was seen overrides what was known |
| Connector.MailConnector.MissingMessages | internal/imapserver/mailconnector/snapshot.go:93-104 | exactly the known messages not seen, each once, in some order |
| Connector.MailConnector.ForgetMessages | internal/imapserver/mailconnector/snapshot.go:75-81 | drops exactly the listed messages |
| Connector.MailConnector.ForgetDeleted | internal/imapserver/mailconnector/connector.go:120-130 | one deletion for each missing message, then they are forgotten |
| Connector.MailConnector.Sync | internal/imapserver/mailconnector/connector.go:71-117 | the updates, the new memory and the events are those of one possible cycle of the model, also when the account cannot be listed |
| Replay.ScanReplay | internal/imapserver/mailconnector/connector.go:216-231 | for every account, replaying a scan shows the last listing that counts as changed, else leaves the entry alone |
| Replay.AnnounceReplay | internal/imapserver/mailconnector/connector.go:251-256 | for every account and interleaving a new message is shown in exactly the folders that served it, with the flags it was first announced with |
| Replay.FirstAnnounced | internal/imapserver/mailconnector/connector.go:251-256 | those flags are the ones of its first listing that parses, when no folder lists it with two sets of flags |
| SyncRuns.SyncMirrorsExactly | internal/imapserver/mailconnector/connector.go:69-130 | for every account and schedule one sync keeps the mirror exact for a message if and only if nothing listed it; or it was known and what was last sent, or else remembered, looks like its last listing; or it was new and announced in the folders and first with the flags of its last listing |
| SyncRuns.KeptIsShown | internal/imapserver/mailconnector/snapshot.go:36-58 | after a sync that keeps a listed message the client is shown it in exactly the folders of its last listing, as seen, flagged and draft exactly when that listing says so |
| SyncRuns.KeptIsSettled | internal/imapserver/mailconnector/connector.go:85-117 | the same condition read off the account and the memory alone: its last listing is a change or all are none; or all its folders served it and its first flags are its last |
| SyncRuns.AgreedIsKeptIfServed | internal/imapserver/mailconnector/connector.go:85-117 | where the folders agree about a message the condition is that a new one is served by every folder it is in |
| SyncRuns.RunMirrorsExactly | internal/imapserver/mailconnector/connector.go:69-130 | the mirror is exact for a message after every sync of a run if and only if every sync keeps it |
| SyncRuns.ReplayReproducesMemory | internal/imapserver/mailconnector/connector.go:69-130 | after every sync of a run, replaying every update from nothing gives what the connector remembers, if and only if every sync keeps every message |
| SyncRuns.ReplayReproducesTheAccount | internal/imapserver/mailconnector/connector.go:107-114 | after a run that kept every message, a complete sync leaves the mirror equal to the account if and only if it keeps every message too |
| SyncRuns.OneFolderIsKept | internal/imapserver/mailconnector/mutations.go:74-76 | with one folder per email every sync, also a partial one, keeps every message |
| SyncRuns.OneFolderReplays | internal/imapserver/mailconnector/mutations.go:74-76 | so over any run of such accounts replay gives the memory |
| SyncRuns.ChangeDuringAScanDrifts | internal/imapserver/mailconnector/connector.go:216-231 | a known message that changes and is then listed as before, in one scan, is shown changed and remembered as before |
| SyncRuns.MoveDuringAScanDrifts | internal/imapserver/mailconnector/connector.go:216-225 | a new message served by one folder and last listed in another is shown in both and remembered in one, in every interleaving |
| SyncRuns.DriftPersists | internal/imapserver/mailconnector/connector.go:222-231 | no sync that lists a message as remembered changes what the mirror shows of it |
| SyncRuns.CompleteSyncRemembersTheAccount | internal/imapserver/mailconnector/connector.go:107-114 | after a complete sync the memory is what the folders list |
| SyncRuns.RepeatIsQuiet | internal/imapserver/mailconnector/connector.go:198-231 | a second complete sync over an unchanged account downloads and forgets nothing, and emits nothing if and only if every folder is typed and every listing of a message is like its last |
| SyncRuns.DeletionsAreSafe | internal/imapserver/mailconnector/connector.go:109-130 | a deletion goes out only when every folder answered, none lists the message, and it was known |
| SyncRuns.DeletedOnce | internal/imapserver/mailconnector/snapshot.go:73-81 | a message that is forgotten is not deleted again until a sync has seen it |
| SyncRuns.FoldersComeFirst | internal/imapserver/mailconnector/connector.go:199-204 | over any run every message is announced in a folder some earlier update created |
| SyncRuns.UnknownFoldersAreCreated | internal/imapserver/mailconnector/connector.go:199-204 | every folder of no known kind is announced, also when listing it fails |
| Poller.NoSendOnClosedChannel | internal/imapserver/server.go:227-265 | in every run of poller, sync, workers and Close no enabled send finds the updates channel closed |
| Poller.WorkersAreJoined | internal/imapserver/mailconnector/connector.go:187-191 | once a folder's download returned, none of its goroutines has a step left |
| Poller.NoFolderIsCutShort | internal/imapserver/mailconnector/connector.go:251-256 | a sync leaves a folder only when each of its messages that parses was sent exactly once |
| Poller.StopIsFinal | internal/imapserver/mailconnector/poll.go:76-83 | Stop returns only with no cycle running, and none starts after it |
| Poller.OneCycleAtATime | internal/imapserver/mailconnector/poll.go:55-67 | cycles never overlap |
| Poller.ResyncIsNotLost | internal/imapserver/mailconnector/poll.go:38-47 | whatever follows a call, the token is still in the slot or a requested cycle started |
| Poller.ResyncCanBeServed | internal/imapserver/mailconnector/poll.go:49-68 | until the loop exits, a token in the slot can still start a requested cycle |
| Poller.TickIsNotLost | internal/imapserver/mailconnector/poll.go:49-74 | a tick is pending until the loop takes it, or the return of a requested cycle drops it |
| Poller.TickCanBeServed | internal/imapserver/mailconnector/poll.go:49-68 | until the loop exits, a pending tick can still start a cycle nobody asked for |
| Poller.CallsDuringACycleCoalesce | internal/imapserver/mailconnector/poll.go:32-47 | any number of calls during one cycle cause at most one further requested cycle |
| Poller.CloseCanFinish | internal/imapserver/server.go:247-262 | from every state in which Close waits for the loop, some continuation closes the channel |
| Tiers.HexRoundTrip | internal/store/disk.go:36-43 | decoding the stored data key undoes its encoding |
| Tiers.HexExactly | internal/store/disk.go:61 | two lower-case hexadecimal digits a byte, the high half first |
| Tiers.LookupExactly | internal/store/routing.go:22-31 | a key reads as its entry, else as its file under the data key stored for it; as not found exactly without an entry and without a file or its data key |
| Tiers.SetChoosesTheTier | internal/store/routing.go:33-42 | a value of at most 3000 bytes ends up in the keychain alone, a longer one in a file alone, its data key beside it |
| Tiers.SetIsReadBack | internal/store/routing.go:33-42 | from any state a Set that went through is read back exactly and no other key reads differently |
| Tiers.InterruptedSet | internal/store/disk.go:48-65 | what is read after any prefix of the writes of a Set, case by case, from any state |
| Tiers.InterruptionLosesExactly | internal/store/disk.go:59-64 | a readable value becomes unreadable if and only if a large value was being written over a file, after its new data key and before its new contents |
| Tiers.InterruptedSetIsLocal | internal/store/routing.go:33-42 | an interrupted Set changes how no other key reads |
| Tiers.KeysCollideExactly | internal/store/disk.go:61-63 | a Set of one key never changes how another reads if and only if neither is the data key of the other |
| Tiers.DekLikeKeysCollide | internal/store/disk.go:61-63 | setting the data key of a key with a file makes it unreadable if and only if the value is large or is not that file's data key |
| Tiers.SetKeepsTidy | internal/store/routing.go:33-42 | one tier per key, a data key per file and a file per data key survive a Set |
| Tiers.RemoveKeepsTidy | internal/store/routing.go:44-49 | and a Remove |
| Tiers.RemoveIsReadBack | internal/store/routing.go:44-49 | from any state a Remove that went through leaves nothing to read and changes no other key |
| Tiers.InterruptedRemove | internal/store/routing.go:44-49 | what every key reads like after any part of the writes of a Remove, from any state |
| Tiers.RemoveUncoversExactly | internal/store/routing.go:44-49 | an interrupted Remove brings another value back if and only if the keychain entry went and a readable file was left beneath it; never where each key lives in one tier |
| StoreModel.SaveIndex | internal/store/store.go:134-143 | saving the index, of any size, is read back and changes no user's key |
| StoreModel.WithoutExactly | internal/store/store.go:130-131 | dropping a key keeps the others, in order and without repeats |
| StoreModel.WithoutClosesTheGap | internal/store/store.go:130-131 | the others keep their order |
| StoreModel.SetKeepsTheOrder | internal/store/store.go:114-123 | Keys lists a new key last; a Set of a listed one writes no index |
| StoreModel.SetRefinesMap | internal/store/store.go:43-54 | Set is map update, and Keys lists the domain |
| StoreModel.RemoveRefinesMap | internal/store/store.go:62-70 | Remove is removal from the map |
| StoreModel.ClearLeavesNothing | internal/store/store.go:78-97 | Clear leaves no value, file, data key or index |
| StoreModel.StoreRefinesMap | internal/store/store.go:43-143 | over every sequence of successful operations Get agrees with a plain map and Keys lists its domain without repeats |
| StoreModel.StoppedSetIsSafe | internal/store/store.go:43-54 | a Set stopped after any write, index included, leaves the old value, the new one or an error, and every other key unchanged |
| StoreModel.FullSetIsReadBack | internal/store/store.go:43-54 | a Set that went through is read back from any state left by failures |
| StoreModel.IndexKeyCollides | internal/store/store.go:15 | what the index and its key read as after the whole Set of it, the addition to the index included |
| StoreModel.DekLikeKeysBreak | internal/store/store.go:43-54 | the collision of a data key from every valid store, through the whole Set |
| StoreModel.SettableExactly | internal/store/store.go:43-54 | Set, its refusal of the empty key included, is read back, listed and changes nothing else on every valid store if and only if the key is not empty, not the index and not the data key of it or of a user's key |
| StoreModel.UserKeysBehave | internal/store/store.go:43-54 | a user's key is settable, so Set behaves for it on every valid store |
| StoreModel.UserKeysExactly | internal/store/store.go:15-54 | the keys of the map theorem are the settable ones that do not end like a data key |
| StoreModel.StoppedSetIndex | internal/store/store.go:114-143 | after a Set stopped anywhere the index reads as before, with the key added, or not at all: the last if and only if a large list was being written over the index's file, between its new data key and its new contents |
| StoreModel.UnlistedOutlivesClear | internal/store/store.go:43-97 | a new key whose Set stopped before the index is held, is not listed, and is not removed by Clear |
| StoreModel.ClearEmptiesExactly | internal/store/store.go:78-97 | from any state Clear leaves nothing if and only if the index can be read and lists every key held |
| Store.Store.Perform | internal/store/keychain.go:60-78 | one write of a device: done, refused, or done and reported as failed; the keychain refuses entries over its limit |
| Store.Store.DiskGet | internal/store/disk.go:27-46 | reads the file under its data key, or not found, or an error |
| Store.Store.DiskSet | internal/store/disk.go:48-65 | data key first, then the file; stopped after either when it fails |
| Store.Store.DiskRemove | internal/store/disk.go:67-72 | file first, then its data key |
| Store.Store.RouterGet | internal/store/routing.go:22-31 | the keychain, then the file |
| Store.Store.RouterSet | internal/store/routing.go:33-42 | all the writes of a Set, or a prefix of them when it fails |
| Store.Store.RouterRemove | internal/store/routing.go:44-49 | both tiers are tried even when the first one fails, so what is left is one of the partly removed states |
| Store.Store.Index | internal/store/store.go:99-112 | a missing index is an empty one |
| Store.Store.AddToIndex | internal/store/store.go:114-123 | adds an unlisted key, writes nothing for a listed one, fails when the index cannot be read |
| Store.Store.DropFromIndex | internal/store/store.go:125-132 | saves the list without the key, fails when the index cannot be read |
| Store.Store.Set | internal/store/store.go:43-54 | on success read back and map update; on failure the old value, the new one or an error; other keys never change; no success without a readable index |
| Store.Store.Get | internal/store/store.go:56-60 | the lookup through both tiers |
| Store.Store.Remove | internal/store/store.go:62-70 | removal from the map on success; on failure the old value, what the file held, or nothing; other keys never change |
| Store.Store.Keys | internal/store/store.go:72-76 | the index |
| Store.Store.Clear | internal/store/store.go:78-97 | on a valid store everything is gone; on reliable devices it succeeds if and only if the index can be read; a failed Clear leaves each listed key as before, as its file or as nothing, and no other plain key changed |
| Frame.HeaderRoundTrip | internal/control/frame.go:104-105 | a length written as four bytes is read back |
| Frame.HeaderExactly | internal/control/frame.go:104-105 | the most significant byte of the length comes first |
| Frame.BadSizesExactly | internal/control/frame.go:82-85 | a length of 0, or of more than a mebibyte, is refused, and nothing behind the header is read |
| Frame.SizeRoundTrip | internal/control/frame.go:78-82 | every four bytes are the header of one length |
| Frame.FirstFrameExactly | internal/control/frame.go:72-91 | a payload is read if and only if the stream starts with its frame, and just the frame is consumed |
| Frame.PrefixYieldsNothing | internal/control/frame.go:79-89 | a strict prefix of a frame never yields a payload |
| Frame.PayloadsOfFrames | internal/control/frame.go:72-91 | a stream of whole frames yields exactly their payloads in order |
| Frame.ReadFull | internal/control/frame.go:79-89 | for any chunking: exactly n bytes, or the end of the stream |
| Frame.ReadFrame | internal/control/frame.go:72-91 | for any chunking: the first frame of the stream, its size error, or its end |
| Frame.WriteAll | internal/control/frame.go:114-126 | terminates; everything went out, or a prefix when a write failed |
| Frame.WriteFrame | internal/control/frame.go:95-110 | the whole frame, a prefix of it on failure, nothing for an illegal payload |
| Frame.ReadsExactly | internal/control/frame.go:72-91 | a reader gets certain payloads with nothing left over if and only if the stream is their frames |
| Senders.ReaderSeesWholePayloads | internal/control/control.go:131-135 | in every interleaving in which no send tears its frame, also with failed sends, a reader gets exactly the payloads that went out, in lock order, and never part of one |
| Senders.InStepExactly | internal/control/control.go:131-135 | in every run, failed sends included, the reader is in step with whoever sends next if and only if no send tore its frame |
| Senders.InStepAfterFailureExactly | internal/control/frame.go:106-109 | after a send that reported failure the reader is in step as before if and only if none of its frame went out, or all of it |
| Senders.TornPayloadSwallows | internal/control/frame.go:106-109 | after a send torn in its payload the next frame is read as the rest of it, or not at all when too short |
| Senders.TornHeader | internal/control/frame.go:104-109 | the size a reader sees after a send torn in its header |
| Base64.RoundTrip | internal/mail/outgoing.go:266-267 | decoding undoes encoding (section 4 of RFC 4648) |
| Base64.SymbolIsOfTheAlphabet | internal/mail/attachments.go:70 | the symbols are those of Table 1 of RFC 4648, the padding is = |
| Base64.EncodeExactly | internal/mail/attachments.go:70 | every three bytes are four symbols of six bits each, most significant first, with = for bytes that are not there |
| Base64.DecodesExactly | internal/mail/outgoing.go:266-267 | what decodes is whole quanta of symbols of which only the last may end in paddings |
| Base64.UnpaddedDecodes | internal/mail/outgoing.go:266-267 | text without paddings decodes to the bytes that encode to it |
| Base64.EncodedLength | internal/mail/attachments.go:74 | the encoded length depends on the number of bytes alone |
| Attachments.WriteBase64 | internal/mail/attachments.go:77-85 | appends the encoding cut into lines |
| Attachments.LinesAreShort | internal/mail/attachments.go:77-85 | no line exceeds 76 characters (section 6.8 of RFC 2045) |
| Attachments.LinesExactly | internal/mail/attachments.go:77-85 | a break after every 76 characters and at the end, and nowhere else |
| Attachments.StripLines | internal/mail/attachments.go:77-85 | dropping the line breaks gives the encoding back |
| Attachments.BreaksLineUp | internal/mail/attachments.go:77-85 | two encodings of one length break in the same places |
| Attachments.WriteAttachmentPart | internal/mail/attachments.go:58-75 | the lines of a part decode to the content that arrived; else they are as many letters A as the declared size takes |
| Attachments.BuildLiteralWithAttachments | internal/mail/attachments.go:27-56 | the head, then each attachment's separator, header and right lines in order, then the closing; the plain message without attachments |
| Attachments.FillingInMovesNothing | internal/mail/attachments.go:17-27 | for any subset of arrived attachments that fit, the literal keeps its length and differs only at base64 characters of those attachments |
| Attachments.ContentsLieThere | internal/mail/attachments.go:27-75 | while contents fit, the lines of each attachment lie at a place that does not depend on what arrived, right behind its header, and decode to its content or are padding |
| Attachments.BlockKeepsLength | internal/mail/attachments.go:58-75 | an attachment's block keeps its length if and only if content and declared size take as many base64 quanta |
| Attachments.SealedSizeMoves | internal/mail/commands/sendemail.go:147-162 | declared at the size of its sealed file, as uploadAttachments does, the placeholder is always longer than the content |
| Stripper.Compact | internal/mail/outgoing.go:278-284 | the bytes that are no line breaks, in order, at the front of the buffer |
| Attachments.StripExactly | internal/mail/outgoing.go:278-284 | which bytes those are: all but 13 and 10 |
| Stripper.NewlineStripper.Read | internal/mail/outgoing.go:275-292 | terminates, never returns nothing without an error, and loses only line breaks |
| Stripper.DecodePart | internal/mail/outgoing.go:262-271 | for any chunking and buffer sizes: the decoding of the stream without its line breaks |
| Stripper.LinesDecode | internal/mail/outgoing.go:266-292 | what writeBase64 wrote decodes to the original bytes |
| SentCopies.FileStep | internal/mail/mail.go:268-276 | filing keeps order and map matched and at most 32 long |
| SentCopies.HoldsTheNewest | internal/mail/mail.go:257-277 | after any history the order is the 32 Message-IDs inserted last, and each leads to the id last filed |
| SentCopies.LookupExactly | internal/mail/mail.go:244-277 | a lookup succeeds if and only if fewer than 32 newer Message-IDs were inserted since |
| SentCopies.FiledIsFound | internal/mail/mail.go:259-277 | a copy just filed is found; filing under no Message-ID or no id changes nothing |
| Threads.OpenTwice | internal/mail/commands/decrypt.go:33-63 | opening an opened email changes nothing and fails as before |
| Threads.PickOpened | internal/mail/commands/getemail.go:25-35 | picking from the opened conversation is picking from the one the API sent |
| Threads.GetEmailAnswers | internal/mail/commands/decrypt.go:33-63 | the answer for an id, field by field: the email it names, an envelope that opens with its text as html and its preview as text and, unless empty, as preview; anything else as it came, and an error exactly when it is an envelope that does not open |
| Threads.FetchedIsTransparent | internal/mail/mail.go:167-183 | a call that missed answers with exactly what the reference does, whatever was remembered meanwhile, and remembers its whole conversation |
| Threads.CachedIsTransparent | internal/mail/mail.go:162-184 | one call that nothing interrupts serves the email of the reference, with its error too unless the cache answered |
| Fetches.EveryCallServesTheEmail | internal/mail/mail.go:162-184 | in every interleaving of calls and forgets, on any number of goroutines, every call serves the email of the reference, shown field by field, and its error too unless it was a hit on an email that does not open |
| Fetches.ErrorIsDroppedExactly | internal/mail/mail.go:162-165 | a lookup is a hit if and only if the conversation was remembered, not merely asked for, since the last forget; a hit drops the error of an email that does not open |
| Fetches.MissKeepsTheError | internal/mail/mail.go:167-183 | however the calls interleave, one that missed answers with the reference's error |
| Fetches.QuestionsBound | internal/mail/mail.go:75-98 | in every interleaving, between two forgets each conversation is asked for at most as often as there are goroutines |
| Fetches.QuestionsExactly | internal/mail/mail.go:162-184 | n calls for a conversation can ask for it k times if and only if k is at most n and the number of goroutines, and not 0 unless n is |
| Fetches.AskedAgainExactly | internal/mail/mail.go:162-169 | from a forget to the next a conversation is asked for again if and only if a call for it begins, without finding it, while another of its calls is in flight |
| Fetches.AskedOnceExactly | internal/mail/mail.go:162-169 | where calls name emails of the conversation it is asked for at most once if and only if no call for it begins while another is in flight, and at least once if and only if there is a call |
| Fetches.ForgetMissesTheFlight | internal/mail/mail.go:75-90 | a forget does not reach a call in flight: it still answers as the reference does and remembers its conversation |
| Fetches.OneGoroutineIsSequential | internal/mail/mail.go:162-184 | with one goroutine, and no forget during a call, every interleaving is a run of calls one after the other |
| Threads.CacheIsTransparent | internal/mail/mail.go:75-98 | a run of calls one after the other, and forgets, serves what the reference serves |
| Threads.HitDropsTheErrorExactly | internal/mail/mail.go:162-184 | one call that nothing interrupts answers with what the reference does, error included, if and only if it is no hit or the email opens |
| Threads.SecondAnswerIsSilent | internal/mail/mail.go:162-165 | an input: an email that does not open, asked for twice, is served without its error the second time |
| Threads.CacheHoldsExactly | internal/mail/mail.go:75-98 | with calls one after the other the cache holds the conversations asked for since the last forget, and nothing else |
| Threads.RunDropsTheErrorExactly | internal/mail/mail.go:162-184 | with calls one after the other an error goes unmentioned if and only if the email does not open and its conversation was asked for since the last forget |
| Threads.OneQuestionPerConversation | internal/mail/mail.go:82-98 | with calls one after the other, between two forgets the backend is asked at most once for each conversation |
| MailService.MailService.ForgetThreads | internal/mail/mail.go:75-80 | the forget step: nothing is remembered afterwards, and calls in flight are left alone |
| MailService.MailService.RememberThread | internal/mail/mail.go:84-90 | every email of the conversation is indexed, the last of equal ids winning |
| Threads.LastRemembered | internal/mail/mail.go:84-90 | under each id the last email of the conversation with it, and nothing else changes |
| MailService.MailService.BeginEmail | internal/mail/mail.go:162-169 | the lookup step, and on a miss the question |
| MailService.MailService.EndEmail | internal/mail/mail.go:167-183 | the step that opens the answer, remembers it and picks the email |
| MailService.MailService.EmailOf | internal/mail/mail.go:162-184 | one call serves the email its id names, shown field by field, whatever other goroutines do between its lookup and its answer, and drops its error if and only if it was a hit on an email that does not open |
| MailService.MailService.SentCopyID | internal/mail/mail.go:244-255 | the id filed for a Message-ID, if it is still held |
| MailService.MailService.RememberSentCopy | internal/mail/mail.go:259-277 | files one copy and trims to 32, keeping order and map matched |
| Recipients.ComputeBcc | internal/mail/outgoing.go:128-143 | the envelope recipients neither To nor Cc names, whatever the case |
| Recipients.BccKeepsOrder | internal/mail/outgoing.go:128-143 | they stay in order |
| Recipients.UniqueAddresses | internal/mail/commands/sendemail.go:240-254 | the first spelling of each non-empty address |
| Recipients.UniqueKeepsFirst | internal/mail/commands/sendemail.go:240-254 | which spelling is kept, and in which order |
| Recipients.AddressesInOrder | internal/mail/commands/sendemail.go:44-48 | To comes before Cc, and both before the rest of the envelope |
| Recipients.LowerExactly | internal/mail/commands/sendemail.go:245-250 | addresses are alike when they differ at most in the case of their letters |
| Recipients.EveryoneOnce | internal/mail/commands/sendemail.go:44-48 | an address is sealed for if and only if To, Cc or RCPT TO name it, and then once |
| Recipients.LookupKeys | internal/mail/commands/sendemail.go:220-238 | the loop over the listings computes KeysOf, of which the next three rows say what it holds |
| Recipients.LookupFailsExactly | internal/mail/commands/sendemail.go:228-236 | the lookup fails if and only if some listed key does not decode |
| Recipients.KeysExactly | internal/mail/commands/sendemail.go:226-237 | an address has a key if and only if some listing gives it one, whatever the case |
| Recipients.LastKeyCounts | internal/mail/commands/sendemail.go:226-237 | and it is the last key given |
| Recipients.SealFor | internal/mail/commands/sendemail.go:200-216 | each address with its own key or the server's; INTERNXT if and only if all have their own |
| Recipients.KeyForExactly | internal/mail/commands/sendemail.go:204-213 | its own key is the last one the directory listed for it; the server key is used exactly when none was |
| Recipients.AllHaveKeysExactly | internal/mail/commands/sendemail.go:200-238 | all have their own if and only if each is given one by some listing |
| Envelope.DecryptUndoesEncrypt | internal/crypto/email.go:19-76 | decrypting gives the body, the preview and the attachments key back |
| Envelope.UnwrapUndoesWrap | internal/crypto/hybrid.go:123-163 | the holder of the private key recovers the wrapped session key, through RFC 3394 |
| Envelope.BuildEnvelope | internal/crypto/envelope.go:150-194 | one wrapped key per recipient in order, or an error |
| Envelope.EnvelopeHolds | internal/crypto/envelope.go:165-193 | each field opens under the session key to its own part of the message, and each wrapped key is the session key wrapped under the secret of its own capsule |
| Envelope.FindKeyFor | internal/crypto/envelope.go:70-77 | the first key wrapped for the address, whatever its case |
| Envelope.FirstKeyOpens | internal/crypto/envelope.go:95-127 | whoever's key comes first for an address opens the envelope to what was sealed |
| Envelope.SendEmail | internal/mail/commands/sendemail.go:44-109 | nothing is submitted if and only if there is no address, the lookup or an upload failed, or a key is missing or unusable; else what is submitted is sealed to every address and the sender, and the backend's id comes back |
| Envelope.EveryRecipientReads | internal/mail/commands/sendemail.go:32-61 | each To, Cc and RCPT TO address has exactly one wrapped key apart from the sender's copy, and the holder of the key it is sealed under recovers the message |
| Envelope.TheAddresseeReads | internal/mail/commands/sendemail.go:32-74 | of each such address the holder of the key the directory listed last for it reads the body's text and preview and the uploaded attachments' key; when none was listed, the holder of the server's key does |
| Delivery.TheAddresseeIsServed | internal/mail/commands/getemail.go:17-35 | an email that carries what was submitted is served to its addressee with the sent body as html and the preview as text, without an error |
| Envelope.SenderReadsExactly | internal/mail/commands/sendemail.go:59-61 | the sender is led to its own copy if and only if it is no recipient or its looked-up key is its own |

## Left out

- The HTTP client, TLS, sockets, the command line, the development parent and the system keychain's own code: input, output or foreign code.
- AES, GCM, ML-KEM, X25519, SHA-3, SHA-256 and random number generation: see the assumptions.
- JSON, MIME, quoted-printable and header parsing, and the text framing of an envelope: the envelope is modelled as its fields.
- Retry backoff, session validation, subject and address formatting, boundary strings, drafts and the mailbox mutations that only pass a call on: they would only add easy members.
- The filter on sync events at the control connection, which drops a start with a total of 0: events are those the connector reports.
- Deadlines on the control connection: a write that times out is a write that failed.
- Blocking on the updates channel: its reader always takes what is sent.
- Concurrent Set and Get in the attachment store: nothing protects that race, so nothing is promised.
- What the key directory, the attachment uploads and the backend do: `Envelope.SendEmail` takes what they came to as parameters.
- Overflow of Go's `int`, and the rounding of the attachment size, a 32-bit float in the API.
- The random data key's length is a parameter of Set; that a reliable Set succeeds is stated for the 32 bytes the source draws.
- StoreModel.StoreRefinesMap: for the keys of `UserKey`: not empty, not `__index`, and not ending in `.dek`. A key such as `a.dek.dek` behaves too while no key `a.dek` is in use; StoreModel.SettableExactly states which single keys do, StoreModel.UserKeysExactly how the two relate.
- Poller.ResyncCanBeServed: states that the token can start a cycle, not that the loop's select will choose it rather than the stop signal, since either may be chosen.
- SyncRuns.KeptIsSettled: reads the condition off the account when folders are listed once and no folder lists a new message with two sets of flags; without that the flags depend on which download finishes first, and SyncRuns.SyncMirrorsExactly states the condition on the cycle.
- Threads.CacheIsTransparent: for calls one after the other, like the other theorems about `Threads.Run`; those about calls that overlap are in `Fetches`. Both are for a backend that partitions ids into conversations without repeats, and previews that are not themselves envelopes.
- Fetches.QuestionsBound: counts the calls by ids of emails in the conversation. An id the backend answers with a conversation that does not hold it is not remembered and is asked for every time.
- Threads.OneQuestionPerConversation: for ids the backend has; a failed question, or one answered with a conversation that does not hold the id, is asked again.
- Attachments.FillingInMovesNothing: for contents that take as many base64 characters as the declared size, as contents of that size do; Attachments.BlockKeepsLength states that this is needed.
- Attachments.WriteAttachmentPart: a nil slice stored for an attachment reads as an attachment that is not there, so the map of contents holds no nil.
- Stripper.NewlineStripper.Read: for a non-empty buffer; with an empty one the source's loop never returns.
- Envelope.EveryRecipientReads: for keys the sender looked up; whether a listed key is really the addressee's is the directory's matter.
