# astrald, modelled and proved in Dafny

astrald is a peer-to-peer node. This project models the parts of it whose correctness is least visible in
the code, and proves what they promise, for all inputs and all runs:

- the encrypted transport between two nodes: the Noise XK handshake, the ratcheting ciphers, the record layer,
  and the byte stream on top of them (`Noise`, `TransportCipher`, `Records`, `Machine`, `Conn`, `Session`,
  `EndToEnd`, `Duplex`; `Transcript` writes every packet and key of a handshake out over the primitives alone);
- delegated authorization: the guarded walk over the contract graph decides exactly whether a chain of
  contracts exists (`Authorize`);
- the index of objects: the append-only change log of each repository, its sync with a snapshot, subscribers'
  cursors, and the wake-up of sleeping subscribers (`ChangeLog`, `Subscription`, `SharedCursor`, `Wakeup`);
- indexed files: path coverage by roots, by a trie and by a key range, and the removal of a root while the
  table is being paged (`Paths`, `Trie`, `Coverage`, `PathIndex`);
- stored objects: the lookup of a partial ID through a lazily built hash index, read windows and the seekable
  reader (`PartialLookup`, `ReadWindow`);
- app signers: the registry of claims, and requests and answers over all interleavings (`Signers`, `Signing`);
- the node key: its crash-safe move between directories and its loading at every start (`NodeKey`);
- re-framing of a byte stream into one websocket frame per line (`LineFrames`).

## How it is built

Code that updates fields is a class whose methods are proved against functions on values; what the system
promises is then proved about those functions or about all runs of a state machine built from them. Functions
outside the code (elliptic-curve Diffie-Hellman, hashing, key derivation, authenticated encryption) are the
fields of a `Suite`; a theorem that needs a law of theirs names it as a `requires` (`Lawful`, `LawfulAead`),
and `LawsSatisfiable` shows that the laws are consistent. Everything the outside world decides (short writes,
failing calls, the answers of other components, the moment a process ends, the order of concurrent steps) is a
parameter or an event, so a theorem holds for every choice.

Where a promise does not hold for every run, the project shows a run that breaks it and the exact condition
under which it holds:

- with any number of subscriptions of one indexer open, a run is exact throughout if and only if every commit finds
  the cursor where it was compared (`RunExactIff`); so for every k, all runs with at most k open at a time are exact
  if and only if k is at most one (`ExactIffOneOpen`; the race is `TwoSubscriptionsGoBack`);
- a run never loses a wake-up if and only if every enable in it finds no sleeping subscriber that has not seen what was
  announced in the repository, and every subscriber that goes to sleep has seen everything enabled since its listing
  (`RunLosesIff`; a run that loses one is `EnablingLosesWakeup`); runs whose enables are all harmless lose none
  (`NoLostWakeup`);
- a seek lands where it means to, for every offset, if and only if it is not from the end of an object whose size
  is not known yet (`SeekIffSizeKnown`; the case is `SeekEndOfPartial`), and a whole run of reads and seeks returns what
  a cursor over the object's bytes returns if and only if every seek in it that is not refused for another reason
  lands where it means to (`RanIsWalkedIff`);
- after a file is evicted from the hash index, the next lookup of its hash is right if and only if the file is not
  stored or the other stored files with that hash do not number exactly one (`EvictedAnswerIff`), and all lookups
  after all runs are right if and only if it is not stored or no index was built (`EvictFuturesIff`; a read that evicts
  a stored, readable file is `ReadEvictsRepublished`);
- after a root is removed exactly the rows that a remaining root covers are live, if and only if no live row is the
  removed root itself, left uncovered (`RemoveRoot`, by `ExactIffRootIsNoRow`; such a row is in `RootRowStays`).

Where the code and its comments disagree the model follows the code. The comment on the record header in
`brontide/noise.go` says the header is authenticated as associated data; the code passes none. The range of keys
under a directory is described as strictly under it; for the top directory the code's range holds the top itself,
which `RangeIsStrictlyUnder` states. `ReadSeeker.Seek` accepts an unknown `whence` and moves to the start.

## Model

| member | source | states |
|---|---|---|
| `Primitives.LawsSatisfiable` | brontide/noise.go:73-76 | The laws assumed of the primitives (ECDH commutes, opening undoes sealing, parsing undoes serializing) hold together for some suite |
| `TransportCipher.KeySchedule` | brontide/noise.go:106-179 | After k operations the key and salt are the first pair ratcheted k / 1000 times and the nonce is k mod 1000, for every k |
| `TransportCipher.NonceNeverReused` | brontide/noise.go:106-179 | Two operations with the same rotation epoch and the same nonce bytes are the same operation |
| `TransportCipher.NonceForm` | brontide/noise.go:106-119 | The nonce of counter n is four zero bytes, then n in eight bytes, least significant first |
| `TransportCipher.CipherState.Encrypt` | brontide/noise.go:106-119 | The ciphertext is sealed under the state before the call and the state advances by one operation |
| `TransportCipher.CipherState.Decrypt` | brontide/noise.go:124-137 | Opens under the state before the call; the state advances by one operation whether or not it opens |
| `TransportCipher.CipherState.RotateKey` | brontide/noise.go:161-179 | A rotation derives the next salt and key and starts the nonce over |
| `Noise.SealedReadsBack` | brontide/noise.go:244-264 | Whoever reads back what a peer sealed gets the plaintext and ends in the peer's symmetric state |
| `Noise.TokenAgrees` | brontide/noise.go:443-715 | For every handshake token, what one peer writes the other reads, and both mix the same secret |
| `Noise.MessageAgrees` | brontide/noise.go:443-715 | Every message both peers can process is accepted by the reader and leaves them with equal digest, chaining key and cipher |
| `Noise.ActAgrees` | brontide/noise.go:450-715 | Each act of XK can be processed by both sides, is accepted, and leaves the parties agreeing on what the next act needs |
| `Noise.InitialForm` | brontide/noise.go:268-323 | The first digest is the hash of name, then prologue, then the responder's static key; the first chaining key is the hash of the name |
| `Noise.EphemeralForm` | brontide/noise.go:450-597 | Digest, chaining key, message key and packet after act one or two, as hashes, key derivations and seals of what was there before |
| `Noise.StaticForm` | brontide/noise.go:606-679 | The same for act three: the static key is sealed under act two's key with counter one |
| `Noise.SplitForm` | brontide/noise.go:686-715 | Both transport keys come from one derivation of the last chaining key, which is the salt of both |
| `Machine.Machine.MixKey` | brontide/noise.go:211-228 | The machine's mix of a secret is the symmetric state's, whose outcome over a whole handshake `Machine.Handshake` writes out |
| `Machine.Machine.MixHash` | brontide/noise.go:233-239 | The digest absorbs the data and nothing else changes |
| `Machine.Machine.EncryptAndHash` | brontide/noise.go:244-250 | Seals under the digest and absorbs the ciphertext |
| `Machine.Machine.DecryptAndHash` | brontide/noise.go:255-264 | Opens under the digest; the digest absorbs the ciphertext only if it opens |
| `Machine.Machine.GenActOne` | brontide/noise.go:450-479 | Act one is the version and the XK message e, es of the machine's state; a failed key generation changes nothing |
| `Machine.Machine.RecvActOne` | brontide/noise.go:485-521 | Reads act one as the XK message e, es; another version is refused with the state unchanged |
| `Machine.Machine.GenActTwo` | brontide/noise.go:529-558 | Act two is the version and the XK message e, ee |
| `Machine.Machine.RecvActTwo` | brontide/noise.go:563-597 | Reads act two as the XK message e, ee |
| `Machine.Machine.GenActThree` | brontide/noise.go:606-629 | Act three is the version and the XK message s, se, and the initiator's ciphers are split off |
| `Machine.Machine.RecvActThree` | brontide/noise.go:635-679 | Reads act three as the XK message s, se; only then are the responder's ciphers split off, the other way round |
| `Machine.Machine.Split` | brontide/noise.go:686-715 | Each role's send cipher is the other role's receive cipher |
| `Machine.ActOne` | brontide/noise.go:450-521 | Generating and receiving act one keeps both machines in step, and the packet and both ends are those written out over the primitives |
| `Machine.ActTwo` | brontide/noise.go:529-597 | Generating and receiving act two keeps both machines in step, and the packet and both ends are those written out over the primitives |
| `Machine.ActThree` | brontide/noise.go:606-679 | Generating and receiving act three keeps both machines in step and crosses their ciphers; the packet and both ends are those written out over the primitives |
| `Machine.Handshake` | brontide/active.go:9-46 | An initiator holding the responder's key and that responder both succeed, end in step, know each other's static keys, and hold crossed ciphers with nonce zero; the three packets, the final digest, the chaining keys and both transport keys are given over hash, key derivation, ECDH and AEAD alone |
| `Records.FrameOpens` | brontide/noise.go:723-893 | A record's header opens to the size of its body and its body to its payload, under the ciphers at their place in the stream |
| `Records.AfterRecord` | brontide/noise.go:723-752 | Each record costs two cipher operations, so the cipher after n records is known |
| `Records.RecordForm` | brontide/noise.go:723-752 | Record k is its two length bytes and its payload, both sealed without associated data under the first key ratcheted k / 500 times, with counters 2 (k mod 500) and the next |
| `Machine.Machine.WriteMessage` | brontide/noise.go:723-752 | A message is buffered exactly if it is short enough and nothing is pending; a refused one consumes no cipher operation and leaves the buffers alone |
| `Machine.Machine.Flush` | brontide/noise.go:762-827 | What was sent followed by what is pending never changes, the body starts only after the header, and the count is the payload bytes that left, MAC bytes never counted; it fails only if something was pending and the transport failed, and otherwise nothing is pending after it |
| `Machine.Machine.FlushRetrying` | brontide/noise.go:762-827 | Over any number of retried flushes nothing is lost, reordered or counted twice, and the counts add up to the payload that left the buffer; more attempts than the transport fails leave nothing pending |
| `Machine.Machine.SendMessage` | brontide/noise.go:723-827 | A message and any number of retries: the counts so far are its payload on the wire, at completion they are its length and the wire has grown by exactly its frame, and it completes within one more attempt than the transport fails |
| `Machine.Machine.ReadHeader` | brontide/noise.go:850-871 | Takes exactly a header from the stream and opens it, or drains a stream too short without touching the cipher |
| `Machine.Machine.ReadBody` | brontide/noise.go:877-893 | Takes exactly the announced bytes and opens them, or drains a stream too short without touching the cipher |
| `Conn.FetchOne` | brontide/conn.go:55-75 | The next record with data is the one at the front of the stream |
| `Conn.FetchSkipsEmpty` | brontide/conn.go:55-75 | Any number of empty records before it are passed over |
| `Conn.Conn.ReadMessage` | brontide/noise.go:831-839 | One record off the stream is one step of fetching |
| `Conn.Conn.Read` | brontide/conn.go:55-75 | Serves the buffered bytes first, otherwise the next record with data, keeping what does not fit; when the stream ends first it fails and hands out nothing |
| `Conn.Conn.Send` | brontide/conn.go:82-121 | A write of one record is refused with nothing changed if an earlier one is pending, otherwise its frame joins what is outgoing, the count is what left, and it fails only if the transport does |
| `Conn.Conn.Write` | brontide/conn.go:82-121 | For every length, what is outgoing grows by the frames of records that carry a prefix of the bytes, the count is exactly the payload sent, a write that does not fail sent all of it, and with nothing pending before it fails only if the transport does |
| `Conn.Conn.WriteChunks` | brontide/conn.go:95-121 | The same for the loop over chunks of a long write |
| `Session.StepKeeps` | brontide/noise.go:723-893 | Every step of sender, wire and receiver keeps the place of each in one common stream |
| `Session.StreamDelivered` | brontide/conn.go:55-121 | In every interleaving of writes, partial flushes and reads, through empty records and rotations, the bytes delivered are a prefix of the bytes written, and all of them once drained |
| `Session.NeverStuck` | brontide/conn.go:55-121 | From every state any run can be in, some further flushes and reads deliver every byte written so far, and with nothing pending any record is accepted |
| `EndToEnd.FetchPrefix` | brontide/conn.go:55-75 | Reading from a cut-off stream still yields the records in order |
| `EndToEnd.ReadOnce` | brontide/conn.go:55-75 | One read hands out, buffers and leaves exactly what was to come |
| `EndToEnd.ReadMany` | brontide/conn.go:55-75 | Reads of any sizes yield a prefix of what was sent, and all of it at the end of a complete stream; each that asks for something and is not at the end yields something |
| `EndToEnd.WriteMany` | brontide/conn.go:82-121 | Writes of any lengths put the stream of one sequence of records on the wire, all of it if none fails, and none fails unless the transport does |
| `EndToEnd.Connection` | brontide/passive.go:10-49 | From the handshake on, over a wire that ends: whatever the initiator writes, and in whatever sizes the responder then reads, the bytes read are a prefix of those written, and all of them if no write failed and the end was reached; no write fails over a transport without faults, and more reads of at least a byte than there are bytes reach the end |
| `EndToEnd.FetchTakes` | brontide/conn.go:55-75 | What a read takes off the wire is exactly the records up to the first with data, and it leaves the cipher and the input right behind them |
| `Duplex.WriteFlows` | brontide/conn.go:82-121 | A write adds its records behind those still to be read, whether or not they have all left |
| `Duplex.FetchFlows` | brontide/conn.go:55-75 | A read moves the front of the records still to be read into what was read and buffered, and nothing else |
| `Duplex.AllRead` | brontide/conn.go:55-75 | With nothing pending at the sender, a read that would have to wait has nothing left to wait for: all bytes handed over were read |
| `Duplex.Act` | brontide/conn.go:55-121 | One write, retried flush or read of one direction keeps read, buffered, on the wire and pending bytes together what was handed over; it fails only with a fault of the transport or as a write behind a pending one, a write or flush that does not fail leaves nothing pending, and a read that then gets nothing has read everything |
| `Duplex.Talk` | brontide/conn.go:55-121 | Both sides write, retry flushes and read in any order over transports that fail at any point: in both directions the bytes read are a prefix of those handed over, each write handed over a prefix of its bytes, all of them if none failed, and everything was read once drained; each failure used up a fault, and something is pending only while the faults used are as many as the flushes since |
| `Duplex.SettledInTheEnd` | brontide/noise.go:762-827 | So over a transport without faults nothing fails, and more flushes after the last write than there are faults leave nothing pending |
| `Duplex.Converse` | brontide/passive.go:10-49 | The same for every script of both sides from the handshake on |
| `Authorize.Matching` | mod/auth/src/db.go:16-39 | Exactly the contracts that have started and not expired, with the subject and a permit for the action; the zero subject drops its filter |
| `Authorize.PermitsOrigin` | mod/auth/src/authorize.go:58-81 | The permits considered are exactly the contract's permits for the action |
| `Authorize.NearerIsEasier` | mod/auth/src/authorize.go:34-103 | A link or a grant usable further from the caller is usable nearer |
| `Authorize.CutCycle` | mod/auth/src/authorize.go:34-103 | Cutting a cycle out of a chain leaves a chain |
| `Authorize.SimpleChainExists` | mod/auth/src/authorize.go:34-103 | Every chain can be made one that visits no identity twice |
| `Authorize.GuardLosesNoChain` | mod/auth/src/authorize.go:34-103 | The walk that never revisits an identity finds authority exactly when some chain, cycles allowed, has it |
| `Authorize.AuthorizeHandlers` | mod/auth/src/authorize.go:112-122 | Some handler allows the actor; node-local handlers count only at the caller |
| `Authorize.Walk` | mod/auth/src/authorize.go:34-103 | Decides exactly the guarded chains from one level, terminates because the unvisited issuers shrink, and restores the actor and the visited set on every return |
| `Authorize.WalkContract` | mod/auth/src/authorize.go:58-81 | One contract's permits in order: allowed only with a chain through its issuer, refused only without one, everything restored |
| `Authorize.Authorize` | mod/auth/src/authorize.go:20-29 | Allows exactly a nonzero actor with a chain of active contracts to an identity that a handler or its authority allows: link i from a permit for the action with delegation at least i, passing its constraint for the issuer; node-local handlers count at the actor only |
| `Authorize.AuthorizedMeans` | mod/auth/src/authorize.go:34-103 | The chains of the walk are exactly those chains, said of contracts, permits, handlers and authorities directly |
| `Authorize.OwnAuthorityDecides` | mod/auth/src/external_authorizer.go:158-163 | Without handlers and contracts, an authority assigned to the caller decides, whether or not one is assigned to the whole action and whatever it says |
| `Authorize.WideAuthorityDecides` | mod/auth/src/external_authorizer.go:158-163 | Without one the authority of the whole action decides, and without that the answer is no |
| `Authorize.OthersAuthorityIsIrrelevant` | mod/auth/src/external_authorizer.go:131-163 | Adding or removing an authority of another identity changes nothing for the caller |
| `ChangeLog.LatestRow` | mod/indexing/src/db.go:164-178 | The row found is one of the object's rows with the highest version, and is found if there is one |
| `ChangeLog.ReplayIsLastMark` | mod/indexing/src/db.go:35-49 | An object is in the replayed set exactly if its last entry is an add |
| `ChangeLog.MaxVersionIsLength` | mod/indexing/src/db.go:98-130 | The highest version of a repository is the length of its log |
| `ChangeLog.LatestIsReplay` | mod/indexing/src/db.go:164-178 | The latest row says an object exists exactly if it is in the replayed set |
| `ChangeLog.LatestExistingIsReplay` | mod/indexing/src/db.go:35-49 | The existing objects by latest row are exactly the replayed set |
| `ChangeLog.NextChangeIsEntry` | mod/indexing/src/db.go:182-196 | The next change after version v is log entry v + 1, if there is one |
| `ChangeLog.FlipKeepsLog` | mod/indexing/src/db.go:98-161 | An entry with the next version that flips its object's presence keeps versions 1..n and the alternation |
| `ChangeLog.FlipKeepsHistory` | mod/indexing/src/db.go:98-161 | An entry that flips its object's presence continues the alternation of every object's entries |
| `ChangeLog.AppendKeeps` | mod/indexing/src/db.go:98-161 | Recording such a change keeps every repository's log well formed |
| `ChangeLog.ApplyOneKeeps` | mod/indexing/src/db.go:98-161 | A write changes at most the log of its repository, by one entry that flips its object |
| `ChangeLog.ReachableLogs` | mod/indexing/src/db.go:98-161 | After any sequence of writes every log has versions 1..n, each object's entries alternate starting with an add, and the zero ID is never present |
| `ChangeLog.Index.AddToRepo` | mod/indexing/src/db.go:98-130 | Records an add exactly for a nonzero absent object, with its error otherwise and the table unchanged |
| `ChangeLog.Index.RemoveFromRepo` | mod/indexing/src/db.go:134-161 | Records a removal exactly for a present object, with its error otherwise and the table unchanged |
| `ChangeLog.Index.FindExcessObjectIDs` | mod/indexing/src/db.go:53-71 | Exactly the present objects the snapshot lacks |
| `ChangeLog.Index.FindMissingObjectIDs` | mod/indexing/src/db.go:75-93 | Exactly the snapshot's objects that are not present |
| `ChangeLog.SyncSets` | mod/indexing/src/repos.go:76-155 | Removing the excess and adding the missing reaches the snapshot and touches each object at most once |
| `ChangeLog.Index.RemoveAll` | mod/indexing/src/repos.go:116-131 | Each listed present object that can be written is removed with one entry and one broadcast |
| `ChangeLog.Index.AddAll` | mod/indexing/src/repos.go:138-153 | Each listed absent nonzero object that can be written is added with one entry and one broadcast |
| `ChangeLog.Index.SyncRepo` | mod/indexing/src/repos.go:76-155 | After a sync pass the replayed set is the nonzero snapshot for every object whose writes succeed, and the log grew by exactly the symmetric difference |
| `ChangeLog.Index.FollowUpdates` | mod/indexing/src/repos.go:158-172 | Objects announced after the snapshot are added, and the log grows by exactly the objects that were not present |
| `Subscription.Indexer.SetState` | mod/indexing/src/indexers.go:74-90 | A cursor moves only to the version right behind it |
| `Subscription.Indexer.PickNextChange` | mod/indexing/src/indexers.go:290-307 | The change picked is the log entry right behind the cursor of an enabled repository; none is picked only if all are caught up |
| `Subscription.Indexer.NextPending` | mod/indexing/src/op_subscribe.go:64-87 | An unanswered change stays pending; a new one is the entry behind the cursor of an enabled repository, and there is none only if all are caught up |
| `Subscription.Indexer.Acknowledge` | mod/indexing/src/op_subscribe.go:121-130 | An ack commits exactly if it names the pending change and that is right behind the cursor |
| `Subscription.Indexer.Serve` | mod/indexing/src/op_subscribe.go:60-131 | One turn sends the pending change, or the entry right behind the cursor of an enabled repository, or nothing only if all are caught up; the cursor moves exactly for an ack that names what was sent, and only a temporary failure keeps it pending |
| `Subscription.Indexer.Subscribe` | mod/indexing/src/op_subscribe.go:60-131 | Over any run, with changes recorded meanwhile: every turn sends the change left unanswered or else the log entry right behind the cursor of an enabled repository, and none only if all are caught up; a matching ack commits it, any other answer but a temporary failure ends the loop; so the acked changes of each repository are exactly its log between the old and the new cursor |
| `Subscription.TurnTaken` | mod/indexing/src/op_subscribe.go:60-131 | One more turn keeps every earlier turn as it was and adds exactly its acked change, if any |
| `Subscription.TableGrows` | mod/indexing/src/op_subscribe.go:60-131 | Changes recorded meanwhile disturb neither the account so far nor the pending change |
| `Subscription.AckExtends` | mod/indexing/src/op_subscribe.go:121-130 | Committing the entry behind the cursor appends exactly it to the acked stretch |
| `SharedCursor.StepSound` | mod/indexing/src/op_subscribe.go:60-131 | With any number of subscriptions open, the change each holds stays the log entry with its version |
| `SharedCursor.CommitExactIff` | mod/indexing/src/indexers.go:74-90 | Writing the cursor keeps the account exact if and only if it did not move since it was compared |
| `SharedCursor.RunExactIff` | mod/indexing/src/op_subscribe.go:60-131 | A run with any number of subscriptions, opened and ended at any time, is exact throughout if and only if every commit finds its cursor unmoved |
| `SharedCursor.StepSerial` | mod/indexing/src/op_subscribe.go:60-131 | While at most one is open at a time, the change it holds stays right behind the cursor |
| `SharedCursor.CursorAdvancesByOne` | mod/indexing/src/indexers.go:74-90 | In every run with at most one subscription open at a time, also one after the other, every step moves every cursor by nothing or by one |
| `SharedCursor.NextIsDelivered` | mod/indexing/src/op_subscribe.go:60-131 | In every run, an open subscription can send exactly while a cursor is behind its log; sent, acked and committed without interruption, the change is the log entry right behind the cursor and moves that cursor alone, by one |
| `SharedCursor.LateAckEnds` | mod/indexing/src/indexers.go:74-90 | An ack that finds its cursor moved ends the subscription and moves no cursor |
| `SharedCursor.AckedReplaysToCursor` | mod/indexing/src/op_subscribe.go:60-131 | In every such run what was acked is the log up to the cursor, and folding it gives the replay of that many entries |
| `SharedCursor.TwoSubscriptionsGoBack` | mod/indexing/src/indexers.go:74-90 | With two subscriptions of one indexer open a cursor can move from 2 back to 1 and a change be acked twice |
| `SharedCursor.ExactIffOneOpen` | mod/indexing/src/op_subscribe.go:60-131 | For every k, all runs with at most k subscriptions open at a time are exact if and only if k is at most one |
| `Wakeup.Notifier.ChangeSignal` | mod/indexing/src/repos.go:179-186 | Returns the current signal, which is open, creating it if there is none |
| `Wakeup.Notifier.BroadcastChange` | mod/indexing/src/repos.go:189-196 | Closes the current signal and puts a new open one in its place |
| `Wakeup.StepKeeps` | mod/indexing/src/op_subscribe.go:63-80 | Every step of appenders and subscribers keeps each scan valid for the signal held |
| `Wakeup.ScannedHoldsNothingAnnounced` | mod/indexing/src/op_subscribe.go:63-80 | In every interleaving, an unacked change a sleeping subscriber scanned past still has its broadcast to come |
| `Wakeup.BroadcastWakesAll` | mod/indexing/src/repos.go:189-196 | In every interleaving a broadcast lets every sleeping subscriber wake, and it then starts over where it was |
| `Wakeup.ScanFinds` | mod/indexing/src/indexers.go:290-307 | A subscriber that starts over finds, in any order of the enabled repositories, the change right behind the cursor of the first that is not caught up, and sleeps only when all are |
| `Wakeup.ServedInOrder` | mod/indexing/src/op_subscribe.go:60-131 | In every interleaving the change a subscriber serves is the one right behind its cursor and is in the log, and its ack moves that cursor alone, by one |
| `Wakeup.EnabledIsLastSwitch` | mod/indexing/src/repos.go:12-39 | In every run a repository is enabled exactly if it was last enabled, or was at the start and never touched |
| `Wakeup.EnablingLosesWakeup` | mod/indexing/src/repos.go:13-20 | Enabling a repository wakes nobody, so a subscriber can sleep past changes already announced |
| `Wakeup.NoLostWakeup` | mod/indexing/src/op_subscribe.go:63-80 | No wake-up is lost in any interleaving of appenders and subscribers whose enables are all harmless, and so in none without enables |
| `Wakeup.EnableLosesIff` | mod/indexing/src/repos.go:13-20 | Where none is lost yet, enabling a repository loses a wake-up if and only if a subscriber asleep on an open signal neither listed it nor has only unannounced changes in it |
| `Wakeup.BlockLosesIff` | mod/indexing/src/op_subscribe.go:72-79 | Where none is lost yet, going to sleep loses a wake-up if and only if a repository enabled since the listing holds an announced change |
| `Wakeup.OthersLoseNothing` | mod/indexing/src/op_subscribe.go:63-80 | No other step loses a wake-up |
| `Wakeup.RunLosesIff` | mod/indexing/src/op_subscribe.go:63-80 | A run with any enabling and disabling never loses a wake-up if and only if each of its enables and goings to sleep meets its condition |
| `Paths.SplitPath` | lib/paths/paths.go:69-90 | An absolute path is split into its segments without empty ones, dots and what double dots cancel; others are refused |
| `Paths.SplitJoined` | lib/paths/paths.go:69-90 | The parts joined by separators are the path, and none holds a separator |
| `Paths.NothingKept` | lib/paths/paths.go:69-90 | Wherever they stand, empty and dot parts change nothing, and neither does a double dot at the root |
| `Paths.NameTakenBack` | lib/paths/paths.go:69-90 | Wherever they stand, a double dot takes back the name before it |
| `Paths.SegmentsOfClean` | lib/paths/paths.go:69-90 | Splitting a clean path gives back the names it was built from |
| `Paths.UnderIsPrefix` | lib/paths/paths.go:15-23 | On clean paths, under means that the root's segments start the path's, and paths are equal exactly if their segments are |
| `Paths.WidestRoots` | lib/paths/paths.go:26-41 | Exactly the roots that lie under no other |
| `Paths.WidestCoverSame` | lib/paths/paths.go:26-41 | The widest roots cover exactly what all roots cover |
| `Trie.Trie.Add` | lib/paths/paths.go:93-118 | Adds one list of segments to those inserted, on a heap of linked nodes that stays a tree |
| `Trie.Trie.Covers` | lib/paths/paths.go:121-145 | Walks down and says whether some inserted list starts the given one |
| `Coverage.PathTrie.Insert` | lib/paths/paths.go:93-118 | Adds the segments of an absolute path and refuses any other |
| `Coverage.PathTrie.Covers` | lib/paths/paths.go:121-145 | True exactly if an inserted root's segments start the path's; a relative path is refused |
| `Coverage.NewPathTrie` | lib/paths/paths.go:53-61 | Holds the segments of all given roots, or fails exactly if one is relative |
| `Coverage.TrimRight` | mod/fs/src/db.go:31-35 | What is left does not end in a separator, and only separators were cut off its end |
| `Coverage.TrieIsPathUnder` | lib/paths/paths.go:121-145 | On clean paths the trie covers a path exactly when it is under some root by the string comparison |
| `Coverage.RangeIsPrefix` | mod/fs/src/db.go:31-35 | Under byte order the range holds exactly the strings that begin with the trimmed root and a separator |
| `Coverage.RangeIsStrictlyUnder` | mod/fs/src/db.go:31-35 | On clean paths the range holds exactly what is strictly under the root; for the top, everything |
| `PathIndex.PageUnaffected` | mod/fs/src/db.go:135-168 | Deleting rows at or before the last key leaves the next page unchanged |
| `PathIndex.PageIsStretch` | mod/fs/src/db.go:135-168 | A page is the next stretch of the rows below the prefix |
| `PathIndex.NextPage` | mod/fs/src/db.go:135-168 | The page read in the middle of the deletions is still the next stretch of what is to be visited |
| `PathIndex.FileTable.SoftDeletePaths` | mod/fs/src/db.go:120-128 | Exactly the rows with the listed paths are marked deleted |
| `PathIndex.BatchCollector.Add` | mod/fs/src/batch_collector.go:19-25 | The item joins the batch, or fills it and the whole batch is processed |
| `PathIndex.BatchCollector.Flush` | mod/fs/src/batch_collector.go:27-34 | Processes what is in the batch and empties it |
| `PathIndex.DeleteUncovered` | mod/fs/src/indexer.go:336-355 | Deletes exactly the live rows below the root that no narrower root covers, each visited once although the table changes meanwhile |
| `PathIndex.RootsNest` | mod/fs/src/indexer.go:308-358 | Of two roots above one path one is above the other |
| `PathIndex.WiderRootCovers` | mod/fs/src/indexer.go:312-317 | With a wider root left, everything at or below the removed root stays covered |
| `PathIndex.NarrowerDecides` | mod/fs/src/indexer.go:319-325 | Without one, a row is out of the deleted range or covered by a narrower root exactly if a remaining root covers it or it is the removed root itself |
| `PathIndex.Indexer.RemoveRoot` | mod/fs/src/indexer.go:308-358 | For clean live rows covered by the roots, with deleted rows anywhere, the live rows afterwards are exactly the earlier live rows that a remaining root covers, besides a row that is the removed root itself; so exactly the covered rows live on if and only if there is no such row left uncovered |
| `PathIndex.ExactIffRootIsNoRow` | mod/fs/src/indexer.go:308-358 | That outcome keeps exactly the covered rows live if and only if no live row is the removed root, not the top and under no other root |
| `PathIndex.RootRowStays` | mod/fs/src/indexer.go:308-358 | An indexed file that is itself the only root is still live after the root is removed, though nothing covers it |
| `PathIndex.Indexer.RemoveRoots` | mod/fs/src/indexer.go:308-358 | Over any sequence of removals, in a table that keeps its deleted rows, the live rows are exactly the rows live at the start that the remaining roots cover |
| `PartialLookup.Repository.RefreshIndex` | mod/fs/src/repository_index.go:118-142 | Replaces the index by a complete listing; a failed or cancelled one keeps the index there was |
| `PartialLookup.Repository.Match` | mod/fs/src/repository_index.go:74-99 | Keeps exactly the candidates whose file is regular and of their size, answers none, unique or ambiguous accordingly, and changes nothing on a failed stat |
| `PartialLookup.Repository.FindPartial` | mod/fs/src/repository_index.go:52-70 | Lists the directory at most once, and does so whenever it answers not found |
| `PartialLookup.UniqueWasSeen` | mod/fs/src/repository_index.go:74-114 | Whatever happens to the directory meanwhile, an ID is returned only if this lookup saw its file regular and of its size |
| `PartialLookup.NotFoundAfterListing` | mod/fs/src/repository_index.go:52-70 | Whatever happens meanwhile, not found is answered only after a complete listing that named no such file |
| `PartialLookup.ErrorHasCause` | mod/fs/src/repository_index.go:52-99 | A lookup fails only after a failed stat or a listing that failed or was cancelled, and while a candidate's file is there only after a failed stat |
| `PartialLookup.ListedOrigin` | mod/fs/src/repository_index.go:118-142 | A listing's index holds an ID under its hash exactly if a regular entry is named by it |
| `PartialLookup.Repository.AddObject` | mod/fs/src/repository_index.go:146-157 | Adds an ID once, and leaves an index not built yet alone |
| `PartialLookup.Repository.Evict` | mod/fs/src/repository_index.go:168-177 | Removes one ID and no other |
| `PartialLookup.Repository.Publish` | mod/fs/src/writer.go:87-108 | The file is stored and indexed, an existing regular file is kept, and a failed rename changes nothing |
| `PartialLookup.Repository.RemoveObject` | mod/fs/src/repository.go:234-247 | Removes file and entry; a failed removal keeps both |
| `PartialLookup.Repository.DeletePartial` | mod/fs/src/repository.go:217-231 | Removes the one object with the hash, if there is one |
| `PartialLookup.Repository.ReadPartial` | mod/fs/src/repository.go:100-118 | With nothing in between, a file found and then not opened is evicted and reported not found |
| `PartialLookup.Repository.OpenFound` | mod/fs/src/repository.go:110-118 | The half of a read after the lock is released: a file that does not open is evicted from the index as it then is |
| `PartialLookup.FoundIsFresh` | mod/fs/src/repository_index.go:52-99 | With nothing else going on, a lookup that does not fail answers as a fresh listing would, and keeps every stored file indexed |
| `PartialLookup.StepKeeps` | mod/fs/src/repository_index.go:52-187 | Every publish, lookup, eviction of an absent file, removal and outside damage keeps every stored file indexed |
| `PartialLookup.StoredAfter` | mod/fs/src/repository.go:217-247 | Publishing stores its file, deleting removes exactly the file it names or finds, and no other operation changes what is stored |
| `PartialLookup.LookupIsFresh` | mod/fs/src/repository_index.go:52-187 | After any run of operations one at a time, files entering only by publishing, the unique, none or ambiguous answer is a fresh listing's |
| `PartialLookup.EvictSafeIff` | mod/fs/src/repository_index.go:160-177 | Evicting from a built index keeps every stored file indexed exactly if the evicted file is not stored |
| `PartialLookup.EvictedAnswerIff` | mod/fs/src/repository.go:110-118 | The next lookup of an evicted file's hash answers as a fresh listing would exactly if the file is not stored or the other stored files with the hash do not number exactly one |
| `PartialLookup.HiddenGoesWrong` | mod/fs/src/repository.go:110-118 | From every state in which a stored file is missing from the index, allowed operations lead to a wrong answer |
| `PartialLookup.EvictFuturesIff` | mod/fs/src/repository_index.go:160-177 | All lookups after all allowed runs stay right exactly if no index was built or the evicted file is not stored |
| `PartialLookup.EvictedWhileStored` | mod/fs/src/repository.go:110-118 | A stored file evicted because it could not be opened makes a later lookup answer unique where a fresh listing is ambiguous |
| `PartialLookup.ReadEvictsRepublished` | mod/fs/src/repository.go:105-118 | From every state in which a partial read finds an object: deleting and publishing it again between the halves of the read makes the read evict a stored file, and a later lookup is wrong |
| `ReadWindow.ResolveReadLimit` | mod/objects/read_limit.go:14-30 | The window lies inside the object, covers the limit or reaches the end, and is refused exactly for negative arguments, an offset past the end or a size over the 64-bit bound |
| `ReadWindow.Reader.Read` | mod/fs/src/reader.go:34-47 | What is read is the front of what was left of the window, and the end is reported exactly when nothing is left |
| `ReadWindow.ReadMany` | mod/fs/src/reader.go:34-47 | Reads of any sizes, short ones included, take the window apart from the front without loss |
| `ReadWindow.Repository.Read` | mod/fs/src/repository.go:100-135 | Opens exactly the resolved window |
| `ReadWindow.ReadWindow` | mod/fs/src/repository.go:100-135 | Opening a window and reading it yields a prefix of exactly that slice of the object, and the slice after enough reads of any sizes |
| `ReadWindow.WrapRefused` | mod/objects/read_seeker.go:52-70 | A 64-bit sum that wraps lands only where it is refused |
| `ReadWindow.SeekIffSizeKnown` | mod/objects/read_seeker.go:52-70 | A seek agrees with unbounded arithmetic for every offset exactly if it is not from the end of an object of unknown size |
| `ReadWindow.ReadSeeker.OpenAt` | mod/objects/read_seeker.go:84-104 | Moves and learns the object's size, or keeps the position and drops the reader |
| `ReadWindow.ReadSeeker.Read` | mod/objects/read_seeker.go:34-48 | Yields the object's bytes from the position on and advances by their number, reopening where it stands; a read that opens learns the object's size |
| `ReadWindow.ReadSeeker.Seek` | mod/objects/read_seeker.go:52-70 | Lands on the position asked for exactly if it is inside the object; a failed seek returns and keeps the old position |
| `ReadWindow.SeekEndOfPartial` | mod/objects/read_seeker.go:52-70 | Before the first open of a partial ID, a seek to the end lands at the start, where the same seek with the size known lands at the end |
| `ReadWindow.Drive` | mod/objects/read_seeker.go:34-104 | Any sequence of reads and seeks from a full or a partial ID, faults and short reads included: if each seek is from one of the three known places, and from the end only where an open has taught the size or it was known, they return what a cursor over the object's bytes in unbounded arithmetic returns |
| `ReadWindow.RanIsWalkedIff` | mod/objects/read_seeker.go:34-104 | Whatever size is believed, all calls return what that cursor returns if and only if every seek not refused for another reason lands where it means to |
| `ReadWindow.SizeLearned` | mod/objects/read_seeker.go:84-104 | After a call that succeeded on a reader with nothing open, the size believed is the object's for good |
| `ReadWindow.FailedSeeksLoseNothing` | mod/objects/read_seeker.go:50-70 | Reads around any number of failing seeks join without a gap, whatever size is believed |
| `ReadWindow.ReadOverFailedSeek` | mod/objects/read_seeker.go:34-104 | From a full or a partial ID, as long as every seek fails, all bytes read, in any sizes and around any faults, are the front of the object |
| `Signers.CheckSignerKeys` | mod/crypto/src/signers.go:91-145 | A set is accepted exactly if its size, each entry and their distinctness allow it, and its pairs are the entries' keys and schemes in order |
| `Signers.ClaimIsPair` | mod/crypto/src/signers.go:18-29 | Two pairs are the same claim exactly if they name the same key and the same scheme |
| `Signers.Registry.Claim` | mod/crypto/src/signers.go:42-61 | All pairs are recorded, or none exactly if one is held |
| `Signers.Registry.Release` | mod/crypto/src/signers.go:64-73 | Exactly the binding's own pairs are dropped |
| `Signers.Registry.Find` | mod/crypto/src/signers.go:76-85 | The binding that holds the pair, if any |
| `Signing.NewRequestID` | mod/crypto/src/signer_binding.go:94-106 | A request ID is nonzero and not waiting, and none is given only if no draw is |
| `Signing.Signed` | mod/crypto/src/signer_binding.go:141-157 | A signature is handed on if and only if there is one, it verifies for the key and content and it carries the asked scheme; then it is the answer's |
| `Signing.StepKeeps` | mod/crypto/src/signer_binding.go:51-157 | Every step of registrations, readers and asks, in any order, keeps the account of claims, waiting requests and answers |
| `Signing.RegistryIsUnion` | mod/crypto/src/op_register_signer.go:64-84 | In every run the registry is exactly the disjoint union of the pairs of the admitted, unreleased bindings |
| `Signing.ClaimAdmitsIff` | mod/crypto/src/signers.go:42-61 | In every run claiming succeeds if and only if no admitted, unreleased binding has one of the pairs |
| `Signing.AskReaches` | mod/crypto/src/signers.go:76-85 | In every run an ask for a pair of such a binding reaches it |
| `Signing.ReleaseFrees` | mod/crypto/src/signers.go:64-73 | In every run releasing a binding frees exactly its pairs |
| `Signing.AskTakesItsOwn` | mod/crypto/src/signer_binding.go:73-133 | In every run an ask takes at most one answer, to its own request, with either a signature or an error, from the binding that claims its pair |
| `Signing.WaitingApart` | mod/crypto/src/signer_binding.go:94-106 | In every run asks waiting on one binding wait under different IDs |
| `Signing.AnswerArrives` | mod/crypto/src/signer_binding.go:73-133 | In every run a well-formed answer to a waiting request with nothing buffered can be read, handed over and taken, and is what the ask takes |
| `Signing.MalformedCloses` | mod/crypto/src/signer_binding.go:73-76 | An answer with both a signature and an error, or with neither, closes its binding and reaches no ask |
| `Signing.LateAnswerIgnored` | mod/crypto/src/signer_binding.go:71-91 | In every run an answer to an ask that is over, or to none, changes nothing |
| `Signing.AskNeverStuck` | mod/crypto/src/signer_binding.go:94-133 | In every run an ask can be given any unused ID, time out, end with its binding, and have the answer it took checked |
| `Signing.ReturnedVerified` | mod/crypto/src/signer_binding.go:141-157 | In every run a signature reaches a caller only from the answer taken, verified for the asked key, content and scheme |
| `Signing.CheckDecides` | mod/crypto/src/signer_binding.go:141-157 | A good signature is returned and its binding left alone; the binding is closed exactly if there is a signature and it is not good; no other ask, binding or claim changes |
| `NodeKey.Disk.WriteData` | resources/file_resources.go:100-130 | Wherever it ends, the data root holds what it held or complete synced bytes |
| `NodeKey.Disk.CopyToDataRoot` | resources/file_resources_move.go:53-73 | Succeeds only with both copies equal and never touches the root's |
| `NodeKey.Disk.MatchDataRootCopy` | resources/file_resources_move.go:78-94 | Succeeds only with both copies equal and changes neither |
| `NodeKey.Disk.MoveToDataRoot` | resources/file_resources_move.go:15-50 | The root's copy goes only when the data root's is equal, a key in the data root is never replaced, and one file behind both names is never removed; an equal copy that cannot be removed is only reported, and nothing is called after the process ended |
| `NodeKey.Disk.LoadIdentity` | cmd/astrald/identity.go:16-52 | Loads the data root's key, and stores a new one only if there is none; with every call succeeding a first start stores and returns the new key |
| `NodeKey.Disk.Start` | cmd/astrald/run.go:43-96 | Wherever a start ends no stored key is lost; while writes store what they are given, the key in use never changes and is the one the start runs under; a full run leaves a legacy key in the data root only, runs under the data root's key if that decodes, and under the new key if neither root held one |
| `NodeKey.Starts` | cmd/astrald/run.go:43-96 | Over any number of starts, each ending at any call, every stored key survives and all starts that succeed run under the same key |
| `NodeKey.LegacyKeySettles` | resources/file_resources_move.go:15-50 | A key of the config root alone, after any such starts and one full run, is in the data root only and in use |
| `LineFrames.LinesUnique` | mod/apphost/src/ws_conn.go:42-65 | There is one way to cut a stream into lines and a rest without a newline |
| `LineFrames.WsConn.Write` | mod/apphost/src/ws_conn.go:42-65 | Frames sent and bytes pending always concatenate to the stream, also when a frame fails; after a write that does not fail the frames are the lines of the stream and nothing pending holds a newline; a write fails only when the socket takes no more frames |
| `LineFrames.WriteChunks` | mod/apphost/src/ws_conn.go:42-65 | For every way of cutting the stream into writes the frames are the lines of the stream, unless the socket stops taking frames |

## Left out

- The inside of secp256k1, SHA-256, HKDF and ChaCha20-Poly1305: the laws named above stand for them; the AEAD instance a cipher holds is folded into its key, and key zeroing is not modelled.
- Secrecy and authentication of the transport: what is proved is agreement, delivery and nonce discipline between honest peers over a faithful wire.
- Handshake deadlines, cancelled contexts and timeouts other than as events that may happen at any step; log lines and their levels.
- A read of `Duplex` with no complete record to take is one that waits: it changes nothing until the record is there.
- gorm and SQLite: a table is a sequence of rows in key order and a transaction one atomic step; database errors while a root is removed are not modelled.
- A sync pass that is cancelled, or whose snapshot ends early or cannot be compared with the table: the pass modelled is one that gets to its end, though any of its writes may fail.
- Registration, renaming and removal of indexers and their storage in the tree of settings; a cursor is a map from repositories to versions.
- Rate limits, file watching and the workers that hash files: they rest on time and on a file system that changes by itself.
- Scanning, statistics, free-space accounting and the full-ID half of the file repository, which only names a file directly.
- The content of permit constraints, handlers and external authorities: each is a function of the actor, fixed during one call.
- Which identities may register a signer, and the app's side of the channel; the request and answer steps of a binding are steps of a state machine on values, since they interleave, and not methods of a class.
- The largest number of keys a signer may claim is a parameter, because its value is defined in another repository.
- The temporary file of a key write that is left behind when its removal fails: nothing reads it.
- Directory entries lost in a power failure after a rename or a removal returned: a process may end at any call, the file system's directories do not go back.
- Closing: that `ReadSeeker` and `wsConn` close what they hold, and close it once.
- Parsing and printing of object IDs: a directory entry carries the ID its name spells.
- Gateways, other network transports, apphost policies, command-line tools, mobile bindings and the JavaScript client.
