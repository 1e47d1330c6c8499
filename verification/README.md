# UwUSSH, modelled and proved in Dafny

This project models the parts of UwUSSH in which a bug would lose a byte, a record, a login or a
file without anybody noticing, and proves what those parts promise. `dafny verify dfyconfig.toml`
checks everything.

- **The byte stream.** `FlowProtocol` is the reader, batcher, renderer and closer as one machine of
  single atomic accesses, in every interleaving: no wake-up is missed, outstanding bytes are bounded,
  the two watermarks cannot deadlock, every pause ends. `Stream` is the same batcher with its real
  bytes and loops: frames are a prefix of what was read, and all of it whenever the renderer
  acknowledges what it was sent within any fixed lag and nothing closes or fails. `Trace` says what
  pauses a run may have and how long they are, `Flow` holds the constants.
- **Replicated records.** `Clock` reads a stamp as one number, so that `tick` and `merge` become two
  maxima; `LastWriter` is the order of versions; `Replication` puts any number of devices under any
  delivery and proves unique stamps, when tombstones stay and when replicas converge.
- **The host store.** `StoreRows` holds the rows and SQL statements, `Drafts` the rules a submitted
  host must meet, `HostGraph` and `Logins` what keeps the reference graph exact and who logs in how,
  `Places` the drag-and-drop orders. `Outcomes` says of the rows alone what a transaction leaves
  behind, `Revisions` that no row goes and every changed one has a higher revision. `Store` is the
  transactions: a class whose methods each keep one strong invariant, leave one of those outcomes
  or one of their refusals, and touch nothing else.
- **The one-typo matcher.** `Close` proves the two-row table with its early exits against the
  recursive edit distance, and that distance to be the length of a shortest edit script.
- **Remote files.** `Sudo` is the byte-at-a-time conversation, `RemoteRemove` the delete with an
  explicit stack, `Shell` the quoting and the paths a root command may act on, `RootScripts` the two
  commands that are run so.
- **Codecs and a cache.** `Base64`, `Manifest`, `Ssh`, `RegFile` and `AssistCache`. `Bytes`, `Search`,
  `Wrappers` and `Text` with what trimming and decimal numbers are, are shared.

Clocks, new ids, passwords' ciphertext and what a server or another thread does are parameters,
nondeterministic choices or counters. A sealed secret is the text the vault would open it to.

## What turned out not to hold

- **Deliveries do not always commute.** A tombstone for a record the device does not hold is dropped
  (`crates/uwussh-store/src/sync.rs:979-983`), so a tombstone that arrives before the live version
  it deletes leaves that record alive. `Replication.DeliveriesCommute` gives the exact condition and
  `Replication.DeliveryReachesMaximum` what a device holds instead of the maximum.
- **An edit can lose to the version it replaced.** A clock is pulled along by at most one day, so
  an edit of a record stamped further ahead gets a lower stamp than the version it replaces.
  `Replication.FarClocksDiverge` is a run of four steps after which two devices have seen the same
  two versions and keep different ones; `Replication.OwnWriteSettles` is the exact condition.
- **A deleted record that is set again lives on at one device only.** Trusting a host key again after
  forgetting it clears the tombstone of its row (`crates/uwussh-store/src/known_hosts.rs:88-102`), and
  so does putting a team secret back (`crates/uwussh-store/src/team.rs:487-549`), while every device
  that has the tombstone keeps it over anything later. `Replication.RevivedRecordsDiverge` is a run of
  four steps, `Replication.TombstonesAreForGood` says that a tombstone stays exactly as long as its
  device does not do that, and `Replication.OwnWriteSettles` has the exact condition for a write.

Convergence is therefore proved for the runs in which none of these three happens, and
`Replication.CleanRunsAreLossless` says how a deployment stays among them. Two more:

- **The cache can hold one long question twice.** Platform and request are cut to 4000 characters when
  stored but looked up uncut. `AssistCache.LongQuestionsRepeat` gives the input,
  `AssistCache.PutKeepsOnePerQuestion` the exact condition.
- **An SSH string of 2^32 bytes or more is not read back**, because its length is truncated;
  `Ssh.StringIsReadBack` says it is exactly then.

## Model

| member | source | states |
|---|---|---|
| FlowProtocol.NoMissedWakeUp | crates/uwussh-core/src/flow.rs:69-121 | In every interleaving of batcher, acknowledgers and closers, a batcher parked although the session is closed or the counter is at or below the low watermark is already notified, or some call stands between its store and its notify. |
| FlowProtocol.OutstandingIsBounded | crates/uwussh-core/src/flow.rs:64-121 | With flow control on, in every reachable state the counter and its recorded peak are at most the high watermark plus one longest frame. |
| FlowProtocol.PauseIsNeverADeadlock | crates/uwussh-core/src/flow.rs:17-33 | Whenever the batcher is paused: without a reason to resume the renderer itself has something to do, since what it holds back stays below the low watermark; with one the batcher can move or a notify is on its way. |
| FlowProtocol.PauseBurnsRank | crates/uwussh-core/src/flow.rs:69-121 | During a pause no step of anybody raises the rank, and every renderer step lowers it, spurious failures and lost races included. |
| FlowProtocol.EveryPauseEnds | crates/uwussh-core/src/stream.rs:276-294 | After any run and any further schedule spent paused, the renderer took at most `Rank` steps of it, can take another as long as there is no reason to resume, and has provided one when it took them all; with a reason the batcher can move or is about to be woken. |
| FlowProtocol.ReasonEndsThePause | crates/uwussh-core/src/flow.rs:106-121 | From a reason to resume on, in any run spent paused, the batcher takes at most four steps of its own, and nobody takes the reason back: its fifth ends the pause at the latest. |
| FlowProtocol.CloseEndsTheBatcher | crates/uwussh-core/src/flow.rs:88-121 | Once closed, the batcher ends within eight of its own steps, wherever it was. |
| FlowProtocol.StepKeepsInv | crates/uwussh-core/src/flow.rs:64-121 | Every atomic step of every thread keeps the invariant: wake-up safety, the bounds, and that the counter never exceeds what is still owed. |
| Stream.FlowControl.OnSent | crates/uwussh-core/src/flow.rs:64-67 | The counter grows by the frame, wrapping at 64 bits, and the peak is the larger of itself and the new counter. |
| Stream.FlowControl.Ack | crates/uwussh-core/src/flow.rs:69-85 | Whatever other acknowledgements land between the load and each attempt, and however often an attempt fails, the result is the old counter less all of them and this one, each exactly once, saturating at zero. |
| Stream.FlowControl.WaitForCapacity | crates/uwussh-core/src/flow.rs:106-121 | Waits exactly when enabled and above the high watermark, exactly until the first moment at which it is closed or at or below the low one, and leaves exactly what the acknowledgements up to then leave. |
| Stream.AckedAllIsSum | crates/uwussh-core/src/flow.rs:69-85 | Saturating acknowledgements commute: only their sum matters. |
| Stream.Coalesce | crates/uwussh-core/src/stream.rs:82-102 | The frame is the first chunk and the next ones in order, one per moment, up to exactly the first of: full, deadline, end of the source; the counter and the close are exactly those of the moments passed. |
| Stream.OneFrame | crates/uwussh-core/src/stream.rs:64-114 | One turn of the outer loop consumes exactly the chunks in its frame; each way of ending names its cause; it waits only after the high watermark was passed and only in moments without a reason to resume, takes at most one moment for each chunk and one more besides, and leaves exactly the counter that acknowledgements and its frame make. |
| Stream.RunBatcher | crates/uwussh-core/src/stream.rs:60-114 | For every chunk sequence and timing the frames are a prefix of the chunks, and no frame and no outstanding amount exceeds its cap. The trace accounts for every moment: all but three for each chunk (and one at the end) lie in pauses that begin above the high watermark and go on in an open session above the low one. So with any renderer that acknowledges only what it was sent, and that within some lag, every run that is long enough for that lag ends, and without a close or sink error with everything sent. |
| Trace.CounterIsExact | crates/uwussh-core/src/flow.rs:64-85 | As long as the renderer never acknowledges more than it was sent, the counter is at every moment the bytes handed over less the bytes acknowledged: saturation never loses any. |
| Trace.HonestPausesAreShort | crates/uwussh-core/src/flow.rs:17-33 | With a renderer that acknowledges only what it was sent, and within a given lag all of it but at most what it may hold back, no pause takes longer than that lag. |
| Trace.ShortPausesAreFewWaits | crates/uwussh-core/src/stream.rs:64-114 | If no pause takes more than so many moments, all of them together take at most that for each frame handed over and once more. |
| Trace.PacedPausesAreShort | crates/uwussh-core/src/flow.rs:17-33 | Nor does a pause take longer than acknowledgements of a given pace in every moment need to bring the most that is ever outstanding below the low watermark. |
| Clock.LessIsTime | crates/uwussh-proto/src/clock.rs:107-120 | The derived order is the order of wall time and counter read as one number, ties by device, and is total. |
| Clock.StepIsSuccessor | crates/uwussh-proto/src/clock.rs:100-105 | A step is exactly plus one on that number, carry included, below the top. |
| Clock.TickIsMax | crates/uwussh-proto/src/clock.rs:46-61 | A tick is the maximum of the clock plus one and the start of the current millisecond. |
| Clock.TickAdvances | crates/uwussh-proto/src/clock.rs:46-61 | A tick sorts after its clock if and only if the clock is not at its very last stamp with wall time not past it. |
| Clock.MergeIsMax | crates/uwussh-proto/src/clock.rs:71-94 | A merge is the maximum of both clocks plus one and the start of the current millisecond, the remote one clamped to one day ahead: the four cases are one formula. |
| Clock.MergePassesRemote | crates/uwussh-proto/src/clock.rs:63-94 | After a merge the clock is past the remote stamp if and only if that lay within the drift or was not ahead of the local clock. |
| Clock.EditAfterMergeSortsAfter | crates/uwussh-proto/src/clock.rs:63-94 | An edit after merging a stamp within the drift sorts after that stamp, at whatever local time. |
| Clock.HostileClocksAreBounded | crates/uwussh-proto/src/clock.rs:16-94 | Over any run of k ticks and merges the clock advances by at least k and ends at most k past the later of its start and the drift limit, whatever arrives. |
| LastWriter.ResolveIsMaximum | crates/uwussh-proto/src/merge.rs:49-66 | `resolve` is the maximum of one strict order, tombstones above edits and then the stamp, from either side. |
| Replication.DeliveriesCommute | crates/uwussh-store/src/sync.rs:950-1010 | Two deliveries of a record commute if and only if not exactly one of them is a tombstone while the record is unknown. |
| Replication.RedeliveryIsIdempotent | crates/uwussh-store/src/sync.rs:950-1010 | Delivering a write twice in a row is delivering it once. |
| Replication.DeliveredRow | crates/uwussh-store/src/sync.rs:979-1010 | What a device holds after any deliveries: nothing if only tombstones came, otherwise the maximum from the first live one on. |
| Replication.DeliveryReachesMaximum | crates/uwussh-store/src/sync.rs:979-1010 | That is the maximum of all of them if and only if every tombstone delivered before the first live version is matched or outranked by something delivered from there on. |
| Replication.StampsAreAlwaysUnique | crates/uwussh-proto/src/clock.rs:46-94 | In every run of any number of devices with distinct ids, under any delivery, no two writes of one record carry the same stamp, though a transaction stamps all the records it changes with one tick. |
| Replication.TombstonesAreForGood | crates/uwussh-proto/src/merge.rs:49-66 | A record tombstoned at a device stays so throughout a run, whatever arrives, if and only if the device does not set it again itself in that run. |
| Replication.TakeSettles | crates/uwussh-store/src/sync.rs:950-1010 | A delivery keeps a device at the maximum of what it saw, for every write, if and only if it is not a tombstone for an unknown record. |
| Replication.OwnWriteSettles | crates/uwussh-proto/src/clock.rs:71-94 | So does its own transaction, if and only if each payload it sets passes the stamp of the version it replaces and none of the records it sets was deleted. |
| Replication.ReplicasConverge | crates/uwussh-proto/src/merge.rs:1-66 | In every lossless run two devices that saw the same writes of a record hold the same version and payload, the maximum, whatever the order, batches and repetitions. |
| Replication.EditsWithinDriftAreNotOutranked | crates/uwussh-store/src/sync.rs:556-580 | As long as batches arrive within the drift, merging only the newest stamp of each is enough for nothing a transaction sets to be outranked. |
| Replication.CleanRunsAreLossless | crates/uwussh-store/src/sync.rs:556-580 | A run is lossless when batches arrive within the drift, tombstones after what they delete, and nothing deleted is set again. |
| Replication.FarClocksDiverge | crates/uwussh-proto/src/clock.rs:63-94 | A concrete run with a clock beyond the drift after which two devices saw the same writes and hold different versions. |
| Replication.RevivedRecordsDiverge | crates/uwussh-store/src/known_hosts.rs:71-117 | A concrete run, trusting a host key, forgetting it and trusting another, after which two devices saw the same writes, one holds the new key and the other the tombstone. |
| HostGraph.GraphIgnoresPlaces | crates/uwussh-store/src/hosts.rs:295-401 | Names, groups and positions are no part of the reference graph: whatever changes only them keeps it and every login. |
| HostGraph.OwnKeepsGraph | crates/uwussh-store/src/hosts.rs:640-685 | Copy-on-write: afterwards the host has an identity nobody shares, logs in as before, and so does everybody else. |
| HostGraph.UpdateKeepsGraph | crates/uwussh-store/src/hosts.rs:742-768 | Changing an identity changes the login of its own hosts only, and leaves at most the secret it dropped without a user. |
| HostGraph.NewIdentityKeepsGraph | crates/uwussh-store/src/hosts.rs:713-740 | Pointing one host at a new identity keeps the graph exact and every other login. |
| HostGraph.ForgetKeepsGraph | crates/uwussh-store/src/vault.rs:234-273 | Forgetting a secret nobody uses keeps the graph exact, leaves no ciphertext, and changes no login. |
| HostGraph.ReleaseKeepsGraph | crates/uwussh-store/src/hosts.rs:689-701 | Releasing a possibly loose password closes the graph again; it survives only if some live identity still uses it. |
| HostGraph.DropHostKeepsGraph | crates/uwussh-store/src/hosts.rs:415-461 | Deleting a host takes its identity along exactly when it was the last to use it, and loosens at most that password. |
| HostGraph.InsertKeyKeepsGraph | crates/uwussh-store/src/keys.rs:102-154 | A key with fresh secrets of its own keeps secrets unshared and every login. |
| HostGraph.TombstoneKeyKeepsGraph | crates/uwussh-store/src/keys.rs:187-229 | A key no live host logs in with can go: nothing live points at it and nobody else uses its secrets. |
| HostGraph.OrphansWouldBreakTheRefusal | crates/uwussh-store/src/keys.rs:199-209 | With an orphaned identity the same refusal would let a key go that is still pointed at: a concrete store. |
| Logins.ReloginKeepsGraph | crates/uwussh-store/src/hosts.rs:295-401 | Re-passwording or editing a login changes this host alone, to exactly what was asked, and loosens at most the prior password. |
| Logins.FirstLoginKeepsGraph | crates/uwussh-store/src/hosts.rs:295-401 | A host without a login gets exactly the one asked for, shared with nobody. |
| Places.OrderIsUnique | crates/uwussh-store/src/groups.rs:266-280 | A bucket with distinct positions has one order, however the query breaks ties. |
| Places.OrderedWithout | crates/uwussh-store/src/groups.rs:266-280 | Leaving the moved host out of the query leaves it out of the order and nothing else. |
| Places.ListingWithout | crates/uwussh-store/src/groups.rs:205-222 | Taking the moved group out of any listing by ascending position leaves the one order of the others, wherever a tie with it was put. |
| Places.RenumberedOrder | crates/uwussh-store/src/groups.rs:295-320 | After renumbering a bucket from zero its order is exactly the given one and positions are 0, 1, …. |
| Places.MoveKeepsInPlace | crates/uwussh-store/src/groups.rs:248-324 | A drag keeps every place invariant and leaves the target bucket in the old order without the host, with it before the given one or at the end, numbered from zero. |
| Places.MoveIsIdempotent | crates/uwussh-store/src/groups.rs:248-324 | The same drag again writes nothing. |
| Places.MoveBumpsWhatMoved | crates/uwussh-store/src/groups.rs:295-320 | A drag changes nothing but places, and a revision exactly when workspace, group or position is new. |
| Places.NextPositionIsFree | crates/uwussh-store/src/hosts.rs:830-841 | The next position is non-negative and after every host of the bucket. |
| Places.EnsureGroupKeepsInPlace | crates/uwussh-store/src/hosts.rs:793-827 | Naming a group finds or creates exactly one live group of that name and workspace and keeps names and positions unique. |
| Places.JoinKeepsInPlace | crates/uwussh-store/src/groups.rs:328-381 | Merging or dissolving a group keeps every place invariant. |
| Places.JoinedOrder | crates/uwussh-store/src/groups.rs:328-369 | The bucket they join keeps its order and continues with the members in theirs. |
| Places.CrossOverKeepsInPlace | crates/uwussh-store/src/groups.rs:146-244 | A group that changes workspace takes its hosts along; only its own position may collide until it is renumbered. |
| Places.MoveGroupKeepsInPlace | crates/uwussh-store/src/groups.rs:200-244 | After the renumbering the groups of the workspace are in exactly the dragged order, at 0, 1, …. |
| Store.Store.SaveHost | crates/uwussh-store/src/hosts.rs:237-409 | Saves exactly a draft without problems, each refusal having its own cause on the draft as typed, and writes nothing otherwise. The saved host has the typed address, port, name (its address without one), workspace and group, stands at the end of a bucket that is new to it, and logs in with the typed user, key and password or the one it had. No other host changes, no row goes, changed rows have a higher revision, and graph and places stay exact. |
| Store.Store.SaveAccepted | crates/uwussh-store/src/hosts.rs:260-401 | The transaction after the refusals: new and existing hosts, with and without a login, all end as drafted. |
| Store.Store.SaveOverLogin | crates/uwussh-store/src/hosts.rs:295-372 | Saving over an existing login, shared or not, keeps both invariants and every other login. |
| Store.Store.SaveFirstLogin | crates/uwussh-store/src/hosts.rs:373-401 | Saving a host without a login gives it exactly the drafted one. |
| Store.Store.Relogin | crates/uwussh-store/src/hosts.rs:492-540 | Changing a password or a whole login through the host's own identity touches no other host and reports what may be loose. |
| Store.Store.SetHostPassword | crates/uwussh-store/src/hosts.rs:468-564 | Succeeds exactly for a live host with a usable change, each error having its own cause; then the host reveals exactly that password, everything else about it and every other host is as before, and changed rows have a higher revision. |
| Store.Store.DeleteHost | crates/uwussh-store/src/hosts.rs:411-466 | The host becomes a tombstone with its row otherwise unchanged; no other host changes; the graph stays exact, so its last login and password go with it. |
| Store.Store.AddKey | crates/uwussh-store/src/keys.rs:102-154 | Refuses exactly a blank key, a bad label or a locked vault, each error having its own cause; otherwise the new key has the given label and type and reveals exactly the sealed halves, and no host changes. |
| Store.Store.DeleteKey | crates/uwussh-store/src/keys.rs:187-229 | Succeeds if and only if the key is live and no live host logs in with it, and then the key and its secrets are tombstones; otherwise the reported number is the count of exactly those hosts. No login changes. |
| Store.Store.MoveHost | crates/uwussh-store/src/groups.rs:248-324 | The host stands directly before the given one, or last if that is not another one of the bucket; the others keep their order, places count from zero without a gap, only places change, and a revision exactly with the place, although each row is compared only with the position the query read. Logins are untouched. |
| Store.Store.MoveMembers | crates/uwussh-store/src/groups.rs:328-369 | The loop over the members is the specified joining. |
| Store.Store.RenameGroup | crates/uwussh-store/src/groups.rs:94-128 | Afterwards the old name finds nothing, and the new one the same record with nothing but name and revision changed, or the group that had it, with the hosts of the old one after its own in their order. Each error has its own cause, everything else and all logins stay. |
| Store.Store.DeleteGroup | crates/uwussh-store/src/groups.rs:131-141 | Its hosts stand after the ungrouped ones in their old order, then the record is a tombstone; nothing else changes. |
| Store.Store.MoveGroup | crates/uwussh-store/src/groups.rs:146-244 | After crossing over with its hosts or merging, the group stands directly before the given one if that is in the workspace, and last otherwise, the others in their order from zero without a gap, however the query breaks a tie; invariants and all logins are kept. |
| Store.Store.CreateGroup | crates/uwussh-store/src/groups.rs:66-89 | Creates exactly a valid name that is new in its workspace, at the end; each error has its own cause. |
| Drafts.ValidatedIs | crates/uwussh-store/src/hosts.rs:178-213 | A draft without problems is stored as typed, but for white space around its texts: name or address, port, user, workspace, group, password, and either a key or a key path for key logins and neither for password logins. |
| Drafts.DraftErrorIs | crates/uwussh-store/src/hosts.rs:152-213 | A draft is refused if and only if it has a problem, and each error has its own cause on the texts as typed, in this order. |
| Drafts.GroupNameIs | crates/uwussh-store/src/hosts.rs:136-149 | A group name is the typed text without white space around it, none for blank text; refused exactly for a control character in that part or more than 80 characters of it. |
| Text.WhitespaceIs | crates/uwussh-store/src/hosts.rs:158-160 | A character is white space exactly if it is in Unicode's list of 25. |
| Text.TrimIs | crates/uwussh-store/src/hosts.rs:136-140 | Trimming leaves the part from the first to the last character that is not white space, and nothing of blank text. |
| StoreRows.FindGroup | crates/uwussh-store/src/hosts.rs:772-791 | Finds a live group of the name if and only if there is one. |
| Outcomes.MovedIsDragged | crates/uwussh-store/src/groups.rs:248-324 | Taking the host out of the order, inserting it and numbering is a drag: it stands before the given host or last, the others as they were. |
| Outcomes.MovedGroupIsDragged | crates/uwussh-store/src/groups.rs:200-244 | The same for groups of a workspace: directly before the given group if that is one of the others, and last otherwise. |
| Outcomes.JoinIs | crates/uwussh-store/src/groups.rs:328-369 | Members join a bucket in their order after everybody in it, keep everything but their place, and nobody else changes. |
| Outcomes.KeyUsersLogIn | crates/uwussh-store/src/keys.rs:199-209 | The hosts that keep a key from being deleted are exactly the live ones that log in with it. |
| Revisions.ReloginRises | crates/uwussh-store/src/hosts.rs:640-768 | Changing a login, copied on write or in place, loses no row and raises the revision of each one it changes. |
| StoreRows.MaxPlace | crates/uwussh-store/src/hosts.rs:830-841 | The largest position of a bucket, attained, or nothing if and only if it is empty. |
| Close.IsClose | crates/uwussh-assist/src/normalize.rs:627-655 | True if and only if the words are equal, or one edit apart with at least five characters each and neither a digit nor one of the listed signs in them; so a word with one is close only to itself, and words of letters are never kept apart by it. |
| Close.NextRow | crates/uwussh-assist/src/normalize.rs:643-649 | The in-place row loop computes the next row of the recursive edit distance. |
| Close.RowStaysOver | crates/uwussh-assist/src/normalize.rs:650-652 | Stopping is sound: after a row with every entry over one no later entry is at most one. |
| Close.CostCoversLengths | crates/uwussh-assist/src/normalize.rs:638-640 | The length check is sound: the distance is at least the difference in length. |
| Close.DistanceIsShortestScript | crates/uwussh-assist/src/normalize.rs:641-655 | The recurrence is the length of a shortest script of insertions, deletions and substitutions: attained, and undercut by none. |
| Close.WithinOneIsOneEdit | crates/uwussh-assist/src/normalize.rs:627-655 | A distance of at most one is equality or exactly one edit. |
| Close.ClosenessIsSymmetric | crates/uwussh-assist/src/normalize.rs:674-679 | Being one edit apart does not depend on which word is the stored one. |
| Sudo.Terminal.Converse | crates/uwussh-core/src/sftp.rs:969-1013 | Against any byte stream: ends after at most the limit plus two bytes; the password is written if and only if there is one and it became due, once, at the moment it first did; each result has exactly its cause in the text read, a rejected password that the prompt stood there a second time. |
| Sudo.StepIs | crates/uwussh-core/src/sftp.rs:1024-1046 | Each step if and only if, over places in the text: done with the first marker shown, missing with the other one, password with the prompt last but for blanks, at one place only and unanswered, rejected with it at two places. |
| Sudo.PasswordIsDue | crates/uwussh-core/src/sftp.rs:1041-1045 | Having answered changes a step only where the password was due, into waiting. |
| Sudo.EndsByTheLimit | crates/uwussh-core/src/sftp.rs:985-1012 | No conversation that still goes on is longer than the limit plus two. |
| Sudo.DoneEndsAtTheMarker | crates/uwussh-core/src/sftp.rs:969-1013 | On success what was read ends with the first done marker: nothing after it has been consumed. |
| Sudo.Terminal.Elevate | crates/uwussh-core/src/sftp.rs:925-959 | Succeeds if and only if the conversation does and a line end follows, each error having exactly its cause; then exactly the first marker's line has been consumed. |
| Sudo.Terminal.FinishLine | crates/uwussh-core/src/sftp.rs:935-957 | Reads at most two bytes and succeeds if and only if they are LF or CR LF; anything else and the end of the stream are the errors they are. |
| Search.CountsOne | crates/uwussh-core/src/sftp.rs:1041-1045 | Counting one match from the left is there being exactly one place where the marker is, for a marker that cannot overlap itself. |
| RemoteRemove.Remote.Remove | crates/uwussh-core/src/sftp.rs:439-483 | Succeeds exactly for a path that exists and removes exactly what is at or below it; the server does every request it is asked, each is about something at or below the path, folders are read or removed as folders, files and links only unlinked. |
| RemoteRemove.Remote.RemoveFolder | crates/uwussh-core/src/sftp.rs:454-481 | The explicit stack ends and leaves exactly the pruned tree; no request is refused on the way, so it is never asked to remove a full folder. |
| RemoteRemove.EmptiedIsEmpty | crates/uwussh-core/src/sftp.rs:456-462 | When a read folder comes back to the top of the stack nothing is left in it. |
| RemoteRemove.StartReading | crates/uwussh-core/src/sftp.rs:463-469 | Reading a folder moves what it covered to its entries, each to be dealt with. |
| RemoteRemove.PushChild | crates/uwussh-core/src/sftp.rs:470-473 | A pushed subfolder keeps the stack apart and everything covered. |
| RemoteRemove.DropFile | crates/uwussh-core/src/sftp.rs:473-478 | An unlinked file keeps the stack apart and everything else covered. |
| Shell.QuotingIsReadBack | crates/uwussh-core/src/sftp.rs:812-815 | A POSIX shell reads the quoted arguments joined by blanks as exactly the list of arguments, for every list. |
| Shell.RootCommandIsReadBack | crates/uwussh-core/src/sftp.rs:801-810 | It reads the whole command as sudo running the script with exactly those arguments, nothing expanded, for every script without a single quote. |
| Shell.RootTargetAccepts | crates/uwussh-core/src/sftp.rs:894-912 | Accepts exactly absolute paths without `..` or control characters whose last piece is a name, and yields that name. |
| Shell.RootTargetIsNormal | crates/uwussh-core/src/sftp.rs:894-918 | Parent and name consist of names, spell the input's components, and parse to themselves when joined. |
| RootScripts.RootCommandsAreReadBack | crates/uwussh-core/src/sftp.rs:784-850 | Deleting and changing as root give a command exactly for the paths such a command may act on, and a shell reads it as the script itself with exactly the folder, the name in it and the mode. |
| RootScripts.ModeIsRead | crates/uwussh-core/src/sftp.rs:836-850 | The mode is always five octal digits, and they mean the low twelve bits. |
| Base64.Serialize | crates/uwussh-proto/src/sync.rs:140-163 | The loop over chunks writes the groups of four of section 4 of RFC 4648. |
| Base64.Deserialize | crates/uwussh-proto/src/sync.rs:165-186 | The accumulator loop yields the whole bytes of the bit string of the values before the first `=`, although it never clears high bits. |
| Base64.LettersAreTheAlphabet | crates/uwussh-proto/src/sync.rs:138-138 | The letter of each value is the one at its place in the alphabet. |
| Base64.DecodedStep | crates/uwussh-proto/src/sync.rs:176-182 | One more value is two more bits or one whole byte, the same with the accumulator cut to 32 bits. |
| Base64.DecodingUndoesEncoding | crates/uwussh-proto/src/sync.rs:140-186 | Decoding the encoding of any byte string gives it back. |
| Base64.StrayCharactersAreIgnored | crates/uwussh-proto/src/sync.rs:173-175 | A character outside the alphabet other than `=` changes nothing, wherever it is. |
| Base64.NothingAfterPadding | crates/uwussh-proto/src/sync.rs:170-172 | Nothing after the first `=` counts. |
| Manifest.Encode | crates/uwussh-proto/src/manifest.rs:76-92 | The loop writes exactly the specified bytes. |
| Manifest.Decode | crates/uwussh-proto/src/manifest.rs:96-132 | Yields a manifest of at most 7000 entries whose encoding is the input, and nothing exactly when there is none. |
| Manifest.EncodingIsInjective | crates/uwussh-proto/src/manifest.rs:76-92 | Different manifests have different encodings. |
| Manifest.RoundTrip | crates/uwussh-proto/src/manifest.rs:150-186 | Every manifest short enough decodes to itself, longer ones to nothing; accepted bytes re-encode to themselves. |
| Ssh.Buffer.PutString | crates/uwussh-keygen/src/ppk.rs:275-279 | Appends the length cut to 32 bits and the bytes. |
| Ssh.StringIsReadBack | crates/uwussh-keygen/src/ppk.rs:275-279 | A string is read back, whatever follows, if and only if its length fits 32 bits. |
| Ssh.Buffer.PutMpint | crates/uwussh-keygen/src/ppk.rs:281-295 | The scan for the first non-zero byte and the sign byte write the specified encoding. |
| Ssh.MpintValue | crates/uwussh-keygen/src/ppk.rs:281-295 | Read as two's complement (section 5 of RFC 4251) it is the number. |
| Ssh.MpintIsShortest | crates/uwussh-keygen/src/ppk.rs:281-295 | No shorter body stands for that number. |
| Ssh.MpintIsCanonical | crates/uwussh-keygen/src/ppk.rs:281-295 | Two inputs are encoded the same if and only if they are the same number, leading zeros or not. |
| Ssh.MacInputIsInjective | crates/uwussh-keygen/src/ppk.rs:97-105 | Different lists of fields are never authenticated as the same bytes. |
| Ssh.Buffer.PutMacInput | crates/uwussh-keygen/src/ppk.rs:97-105 | The loop appends each field as a string, in order. |
| Ssh.PushBase64Lines | crates/uwussh-keygen/src/ppk.rs:262-273 | Writes a heading whose number, read as decimal, is the count of the lines that follow, then the lines. |
| Ssh.LinesSpellTheText | crates/uwussh-keygen/src/ppk.rs:262-273 | The lines spell the text, as many as declared, all full but the last, which is not empty. |
| RegFile.ParseReg | crates/uwussh-import/src/session_files.rs:233-273 | The loop over lines with its three variables is the line-by-line specification; with `ExportReadsBack` that is what an export says. |
| RegFile.SplitValue | crates/uwussh-import/src/session_files.rs:292-311 | The escape loop reads the name up to its closing quote and requires `=` after it. |
| RegFile.Unquote | crates/uwussh-import/src/session_files.rs:314-325 | The escape loop reads the text up to its closing quote, or nothing without one. |
| RegFile.ReadEscaped | crates/uwussh-import/src/session_files.rs:292-325 | Reading undoes escaping, whatever follows the closing quote. |
| RegFile.KeyIsRead | crates/uwussh-import/src/session_files.rs:276-289 | A key under any Sessions path names its session, and the source depends on the path alone. |
| RegFile.BinaryIsIgnored | crates/uwussh-import/src/session_files.rs:239-266 | A binary value over any number of lines leaves the parser as it was. |
| RegFile.ItemIsRead | crates/uwussh-import/src/session_files.rs:239-271 | Texts come back as they are, and of a number, in any hexadecimal spelling, the decimal one of the same value, without leading zeros; other values leave no trace. |
| RegFile.SessionOfIs | crates/uwussh-import/src/session_files.rs:276-289 | A key names no session if and only if whatever follows a Sessions key in it is empty or has a backslash. |
| RegFile.OtherIsIgnored | crates/uwussh-import/src/session_files.rs:239-252 | A section that names no session ends the one before and leaves nothing else behind, whatever it holds. |
| RegFile.LinesSplit | crates/uwussh-import/src/session_files.rs:238-238 | Lines are cut at every line feed, with one carriage return before it dropped, and no empty last line. |
| Text.DecimalSpells | crates/uwussh-import/src/session_files.rs:260-263 | A reader of decimal digits gives the number back, and no leading zero stands before other digits. |
| Text.SpellingIsUnique | crates/uwussh-import/src/session_files.rs:260-263 | No other text is such a spelling of the number. |
| RegFile.ExportReadsBack | crates/uwussh-import/src/session_files.rs:233-273 | Parsing the text of any printed export gives its sessions in order, each with its source and exactly the last value of every name, and nothing of sections that name no session. |
| AssistCache.Cache.Put | crates/uwussh-store/src/assist.rs:347-411 | Refuses exactly a blank command; otherwise the question's own slot, else the first free one, else the one used longest ago holds the answer, each text as given or cut to 4000 characters, `dangerous` as given, made and used now; every other slot is as it was. |
| AssistCache.Cache.FindFreeOrOldest | crates/uwussh-store/src/assist.rs:468-495 | The loops find the first free slot, or the first with the least last use. |
| AssistCache.TouchAgrees | crates/uwussh-store/src/assist.rs:413-421 | A touch changes no answer and forgets none: the slots hold what they held. |
| AssistCache.TouchedGoesLast | crates/uwussh-store/src/assist.rs:413-421 | A touched answer is the next to be evicted if and only if every other slot holds one used or made after the touch, or at the same time in a later slot. |
| AssistCache.Cache.ClearAll | crates/uwussh-store/src/assist.rs:432-466 | Empties every live slot, raising its revision, and returns how many there were; the others stay. |
| AssistCache.PutKeepsOnePerQuestion | crates/uwussh-store/src/assist.rs:349-411 | One answer per question survives a put if and only if no other slot holds the question as cut; always, for one that fits. |
| AssistCache.LongQuestionsRepeat | crates/uwussh-store/src/assist.rs:353-367 | Any question that does not fit takes two slots when put twice. |
| AssistCache.CacheIsAMapButForEvictions | crates/uwussh-store/src/assist.rs:347-466 | Over every run from empty the live slots are exactly a plain map from question to last answer, less what was evicted. |
| AssistCache.EvictsOnlyTheOldest | crates/uwussh-store/src/assist.rs:468-495 | An answer is thrown out only when every slot is taken and the question is new, and then one with the least last use. |
| AssistCache.AtMostAllSlotsAreLive | crates/uwussh-store/src/assist.rs:30-30 | Never more than 200 live entries. |

## Left out

- SQLite, serde, the vault's cryptography, the SSH connection, PTY threads, HTTP and everything in TypeScript: I/O or libraries that are not part of this model.
- Weak memory ordering: every access of the flow controller is taken as sequentially consistent, while the code uses relaxed orderings.
- Real time: the frame deadline, the elevation and removal timeouts are choices that may fall at any point, or are left out.
- Stream metrics, `tunnel.rs`, `finish` on the sink: they do not influence what is sent.
- Wrap-around of the counter of outstanding bytes when flow control is off: it is modelled, but nothing is claimed about its value then.
- The store's per-row clock stamps, dirty flags and `server_seq`: of the sync bookkeeping only the revision is modelled; what stamps do is the subject of `Replication`.
- The tie-break `lower(name)` in the order queries: positions in a bucket are distinct in every reachable state, and where a group that crossed over may be tied, `Places.ListingWithout` holds for every way of breaking it.
- `Store::import`, `mark_connected`, `set_host_os`, `rename_key`, group listing and the rest of the store's API: they add no reference and no place.
- Concurrent transactions: SQLite serialises them, so each is one method.
- The sync engine around `apply_one`: sealing, `base_seq`, manifests' completeness check and special handling of single record kinds.
- Payload merging: a write's payload is opaque.
- Transactions that tick more than once, as an import does: in `Replication` they are several transactions in a row.
- The error text `last_words` builds, and markers inside echoed command lines: the conversation is modelled on bytes, markers being ASCII.
- A failing write to the terminal: a run that it ends is a shorter run.
- Errors of the SFTP server other than those a finite unchanging tree gives rise to; a folder's entries are taken to be listed once each, without `.` and `..`; paths are names in folders instead of joined text.
- Double quotes, expansions and redirections in the shell reader: it refuses to read them, so no result rests on them.
- What a shell makes of the two root scripts once it runs them: they are texts that reach it unchanged.
- `pad`, the key derivations and the hash in `.ppk` files.
- UTF-16 and size limits when a registry file is read, and the folder scan around it.
- `similarity`, `normalize` and the word lists of the matcher: scores and finite tables.
- Record ids of cache slots derived from a hash: a slot is its number.
- Clock: nothing is claimed about stamps at the very last millisecond with a full counter, where a step saturates.
