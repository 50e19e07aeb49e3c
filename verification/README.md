# Verified model of the V2bX node manager

V2bX keeps proxy nodes in step with a panel: it pulls user lists, admits connections, counts traffic and
reports back. This project models the parts of it that hold state of their own and proves what they
promise, for every input, every run or every interleaving. `dafny verify dfyconfig.toml` checks it all.

| file | what it models |
|---|---|
| `Json5Scanner.dfy` | the in-place cleaner of configuration texts, against a byte-at-a-time automaton |
| `Json5Segments.dfy` | what the cleaner is for, on the structure of a text |
| `Json5Tokens.dfy` | the round trip through decorated JSON tokens (RFC 8259, sections 2 and 7) |
| `Json5Values.dfy` | the same for whole JSON values, spelled out in bytes |
| `Users.dfy` | user lists, the keys of the shared tables, and the diff of two lists |
| `Limiter.dfy` | the admission limiter as a class, and what each call means on its value |
| `LimiterRuns.dfy` | runs of one limiter: device limit, buckets, collections |
| `Report.dfy` | the filter and grouping of the online report |
| `Reconcile.dfy` | controllers, the core's user table, and runs of any number of nodes |
| `SharedIds.dfy` | the id table that all nodes of the sing and hysteria2 cores share, keyed by uuid alone |
| `Volumes.dfy`, `Traffic.dfy` | traffic counters and the collect loop, one step at a time |
| `TrafficRace.dfy` | the same with concurrent adders, one atomic operation at a time |
| `CachedReader.dfy` | the reader that looks ahead without disturbing the stream |
| `Sniffing.dfy` | the narrowing list of protocol sniffers and the loop that looks at most twice |
| `Links.dfy` | the registry of open links and the close loop that deletes what it ranges over |
| `Task.dfy` | the periodic task: a lock, a flag, a channel and its goroutines |

Objects whose methods change fields are classes, loops are loops, and the text buffer is an array. Each
such method is proved against a function of the old state; the properties are then proved about those
functions, over runs given as lists of states and events.

## What was found

- The cleaner treats a star inside a block comment specially: the byte after it is not blanked, and `**/`
  does not close. A slash that starts no comment hides the next byte while the cleaner looks past a comma
  (`LoneSlashHidesByte`). The cleaner meets its specification exactly on texts where each such star has a
  space after it and from no comma such slashes and the bytes they hide lead to a closer
  (`CleanMeetsSpecExactly`; `StarCommentMisses` is a text on the other side). Tokens come back also where
  other white space follows a star (`RoundTrip`).
- The diff of user lists is exact if and only if the keys, uuid and speed limit written together, tell users
  apart (`DiffExactly`). With uuids of one length they always do; with mixed lengths they may not
  (`KeysCollide`). The diff ignores ids and device limits, so a change of those alone is not taken over
  (`TickRecordsExactly`, `DeviceLimitStays`).
- In the sing and hysteria2 cores a user who leaves one node loses the id on every other node too, and what
  is counted there afterwards is thrown away (`IdTaken`, `TakenIdDiscards`). `RunAgreesExactly` says exactly
  when that never happens.
- A negative speed limit of a user is ignored beside a positive one of the node: the bucket gets the node's
  rate, which is not the minimum (`BucketRateExactly`).
- An expired dynamic limit deletes the record of a user without a limit of its own (`ExpiryLocksOut`). The
  task that would set dynamic limits is built and never started (node/task.go:42-49), so the program as it
  is does not come to this.
- Narrowing the list of protocol sniffers is safe exactly for sniffers whose definite rejections persist
  (`NarrowingExactly`). One that asks for more data before it has a result is not among them
  (`NeedMoreDataIsDropped`), and the branch of the sniff loop for that answer is never taken.
- A look at a stream that fails with bytes in its hands drops them; nothing else does
  (`TransparentExactly`, `FailedLookLoses`).
- A periodic task can close its channel twice although no close arrives during an execution
  (`LateTimerPanics`). Exactly when it cannot is `ProtocolExactly`; this program's callbacks never fail,
  so it never does here (`NeverFailing`).
- The comment of the cleaner speaks of line comments only; the code handles block comments too. The
  comment of the limit function says it returns the minimum non-zero rate; with one limit zero and the
  other negative it returns zero (`DetermineExactly`). The model follows the code.

## Model

| member | source | states |
|---|---|---|
| Json5Scanner.Prep | common/json5/json5.go:57-91 | in place, on every input well formed or not, the scanner with its index jumps leaves exactly what the one-pass automaton `Clean` writes; no index is out of range |
| Json5Scanner.ConsumeComment | common/json5/json5.go:21-47 | resuming the automaton where this returns gives the same text as entering it at the slash, for top-level use and for use behind a comma (which skips one more byte) |
| Json5Scanner.BlankLine | common/json5/json5.go:22-27 | the line comment loop stops at a newline or the end with the automaton still in the comment |
| Json5Scanner.BlankBlock | common/json5/json5.go:28-45 | the block comment loop ends where the automaton is past the comment, or at the end of the text |
| Json5Scanner.SkipString | common/json5/json5.go:60-70 | the string loop changes nothing and ends where the automaton leaves the string, escapes included |
| Json5Scanner.SettleComma | common/json5/json5.go:73-87 | the lookahead behind a comma ends where the automaton has settled that comma |
| Json5Scanner.CleanOnlyBlanks | common/json5/json5.go:57-91 | cleaning keeps the length and changes bytes only to spaces, on every input |
| Json5Segments.CleanMeetsSpec | common/json5/json5.go:57-91 | on well-formed texts comments become spaces, commas before a closer past white space and comments become spaces, and every other byte including strings and slashes that start no comment stays; well-formed allows such a slash anywhere but next after a comma |
| Json5Segments.CleanMeetsSpecExactly | common/json5/json5.go:31-44 | with stars allowed in block comments and slashes that start no comment allowed anywhere, unless one hides an opening quote behind a comma: the above holds if and only if each star has a space after it and from no comma at least one such slash with the byte it hides, and gaps, lead to a closer |
| Json5Segments.CleanLeaves | common/json5/json5.go:57-91 | on all those texts, if no star keeps its comment from closing, the exact result: bytes after stars and bytes hidden by slashes stay, and a comma is blanked where gaps and hidden bytes lead from it to a closer |
| Json5Segments.StarCommentMisses | common/json5/json5.go:31-44 | the text `/***/` is well-formed and not cleaned as specified |
| Json5Segments.LoneSlashHidesByte | common/json5/json5.go:73-87 | for any comma, gaps, byte and closer: behind the comma a lone slash hides the byte after it, and the comma is blanked over both |
| Json5Segments.CleanTwiceExactly | common/json5/json5.go:73-87 | a second cleaning changes nothing if and only if no comma is followed by a trailing comma |
| Json5Tokens.RoundTrip | common/json5/json5.go:57-91 | any token list printed with arbitrary white space and comments, in which each star of a block comment has any white space after it, and an extra comma before closers is read back from the cleaned text |
| Json5Values.ValueRoundTrip | common/json5/json5.go:57-91 | any value of objects, arrays, strings, numbers and names in the literal bytes of the format, with any white space and comments before every token and an extra comma before the end of any array or object, is read back from the cleaned text |
| Users.KeyInjective | node/user.go:65-67 | for uuids of one length the diff key determines uuid and speed limit |
| Users.DiffExactly | node/user.go:62-83 | for lists of distinct uuids of any length: deleted and added are exactly the users without a match of uuid and speed limit on the other side if and only if old keys are distinct and the first new user with the key of an old one is that user at that speed limit |
| Users.KeysCollide | node/user.go:65-77 | a witness of the failing side: with uuids of different lengths a replaced user goes unseen |
| Users.UserTagInjective | common/format/user.go:7-9 | uuids without the separator keep the users of different nodes apart |
| Users.CompareUserList | node/user.go:62-83 | for any two lists: deleted are the last old users of keys the new list lacks, each once; added are the new users whose key is not old or was used up, in order |
| Users.DiffExact | node/user.go:62-83 | on the panel's lists, with uuids of one length, the keys always tell users apart, so the diff is exact |
| Users.DiffPatches | node/user.go:62-83 | wherever keys tell users apart, deleting by uuid and then adding turns the old list into the new one on uuid and speed limit |
| Users.SpeedChangeShows | node/user.go:69-80 | wherever keys tell users apart, a user in both lists is deleted and added if and only if its speed limit changed |
| Limiter.DetermineExactly | limiter/dynamic.go:19-38 | the minimum non-zero limit is returned if and only if not one limit is zero and the other negative |
| Limiter.NegativeLimitLost | limiter/dynamic.go:19-38 | the limits 0 and -1 give 0, which is not their minimum non-zero |
| Limiter.RateExactly | limiter/limiter.go:188-190 | the rate is 125000 times the limit if and only if the product fits in 64 bits |
| Limiter.Limiter.AddLimiter | limiter/limiter.go:44-72 | a new limiter records exactly the given users and tracks nothing |
| Limiter.Limiter.UpdateUser | limiter/limiter.go:90-113 | deleted users lose record, addresses, bucket, id and alive count, then added users are recorded |
| Limiter.Limiter.UpdateDynamicSpeedLimit | limiter/limiter.go:115-124 | only the dynamic limit and expiry of a recorded user change; for others an error |
| Limiter.Limiter.TrackDevice | limiter/limiter.go:153-186 | store-first and roll-back comes to: reject a new unlisted address of a user at its limit with nothing changed, else track it |
| Limiter.Limiter.CheckLimit | limiter/limiter.go:126-200 | state and verdict of one admission; on the fields: who is rejected, with the device limit compared to the alive count, that a rejection leaves addresses, last collection and buckets as they were, and that an admitted device is tracked |
| Limiter.Limiter.GetOnlineDevice | limiter/limiter.go:202-220 | returns every tracked pair once for each user that holds it, in any order, and makes exactly the tracked addresses the list of the next epoch |
| LimiterRuns.MappedAddress | limiter/limiter.go:128 | an address and the same one behind "::ffff:" have the same verdict and leave the same limiter, and an admitted device is tracked under the plain address |
| LimiterRuns.FreshBucket | limiter/limiter.go:139-199 | a first admission makes a bucket if and only if a limit is in force, at 125000 times the minimum non-zero of node limit, user limit and unexpired dynamic limit |
| LimiterRuns.DynamicLimitCounts | limiter/limiter.go:115-149 | a dynamic limit counts until its expiry, then a user with a limit of its own goes back to it and its record is cleared |
| LimiterRuns.AdmittedBucket | limiter/limiter.go:188-199 | an admitted connection gets the user's one cached bucket, at the user's rate |
| LimiterRuns.ExpiryLocksOut | limiter/limiter.go:139-149 | after an admission the user's next connection is rejected if and only if an expired dynamic limit was found on a user without a limit of its own; no task sets such limits in this program |
| LimiterRuns.RunCoherent | limiter/limiter.go:90-200 | over every run without dynamic limits, buckets and addresses belong to recorded users, bucket rates fit the records, address lists are not empty and hold the recorded id |
| LimiterRuns.BucketRate | limiter/limiter.go:188-199 | for a user whose limit is not negative, and any node limit, a coherent bucket's rate is 125000 times the minimum non-zero of the two as 64-bit arithmetic allows |
| LimiterRuns.BucketRateExactly | limiter/limiter.go:188-199 | for any limits a coherent bucket has 125000 times the minimum non-zero of the two if and only if the user's limit is not negative and the product fits in 64 bits |
| LimiterRuns.NegativeLimitIgnored | limiter/dynamic.go:19-38 | a cached bucket of a user with a negative limit has the node's rate |
| LimiterRuns.BucketShared | limiter/limiter.go:191-196 | until a user is dropped all its connections share the first bucket, over any run |
| LimiterRuns.EpochKeepsOut | limiter/limiter.go:153-186 | while a user is at its limit every address tracked for it in an epoch was in the collection that opened the epoch |
| LimiterRuns.TrackedShrinks | limiter/limiter.go:202-217 | if users never share addresses, over any number of epochs a user at its limit tracks only addresses it had at the first opening |
| LimiterRuns.OldListExactly | limiter/limiter.go:163-178 | within an epoch the list of the last collection is the opening one less the addresses their own users came back from |
| LimiterRuns.TrackedIsLogged | limiter/limiter.go:153-217 | over any run the tracked pairs are exactly those admitted as devices since the last collection whose user was not dropped since |
| Report.GroupOnline | node/user.go:29-46 | the map lists for each user that has an address and no traffic entry with up plus down below the minimum its addresses in order, and nothing else |
| Report.IpsInOrder | node/user.go:37-45 | the addresses of a user come in the order of the list they are taken from |
| Report.ReportExact | node/user.go:25-46 | with one uuid for each id, a report lists each address admitted since the last collection exactly once under its user unless the user was dropped since or is idle |
| Report.ReportedAreRecorded | node/user.go:37-46 | only users with a record are listed |
| Report.NodeReportExact | node/user.go:25-46 | in every run of any number of nodes, with one uuid for each recorded id: the report of a tick lists each address of a listed user exactly once if the user was admitted from it as a device since the last collection, was not dropped by a tick since and is not idle, and else not at all |
| Report.NodeReportsListed | limiter/limiter.go:202-220 | in such a run every pair a collection returns belongs to a user of the node's list and to that history |
| Reconcile.XrayUsers.DelUsers | core/xray/user.go:32-58 | on success exactly the given users leave the id table; on failure exactly those before the first refused one |
| Reconcile.XrayUsers.AddUsers | core/xray/user.go:96-133 | all ids are recorded, also when the library then refuses |
| Reconcile.Controller.Start | node/controller.go:43-98 | a node without users is not started and nothing is touched; else list, limiter and id table hold the users, also when the library refuses them and the start fails |
| Reconcile.Controller.NodeInfoMonitor | node/task.go:170-227 | a user-only tick applies the diff to all views and ignores an empty list; when a core call fails list and limiter stay, and in the id table either the users before the first refused one are gone, or all deleted are gone and all added recorded |
| Reconcile.RunAgrees | node/task.go:170-227 | over every run of starts, user-only ticks, admissions and collections on any number of nodes, list, id tables and limiter records hold the same users, ids and speed limits, and nothing else |
| Reconcile.RunHoldsLastList | node/task.go:174-222 | each node's list is the last non-empty one the panel sent |
| Reconcile.RunConfigured | node/task.go:170-173 | over every run a node's limiter has the node limit of its start and the last alive list the panel sent, less the ids of the users deleted since |
| Reconcile.RunRecords | limiter/limiter.go:44-72 | over every run a user is recorded if and only if it is in the list it was recorded from and was not deleted since, with the id, speed limit and device limit it had there |
| Reconcile.RunAdmitsExactly | limiter/limiter.go:126-186 | over every run, from what the panel sent: a connection is rejected if and only if its user is not recorded, or it is a new device of a user whose device limit is reached by the count in the last alive list |
| Reconcile.OtherTagsStay | core/xray/user.go:41-46 | a tick on one tag changes no entry of another tag in the shared id table |
| Reconcile.TickRecordsExactly | node/user.go:69-76 | after a tick all records match the new list if and only if those of the kept users did before |
| Reconcile.DeviceLimitStays | node/user.go:69-76 | a list in which a device limit alone changes gives an empty diff and an outdated record |
| Reconcile.RunBucketRates | limiter/limiter.go:188-199 | in every reachable state a cached bucket belongs to a listed user and has 125000 times the minimum non-zero of node limit and that user's current limit if and only if that user's limit is not negative and the product fits in 64 bits; with a negative one it has the node's rate |
| SharedIds.SingUsers.AddUsers | core/sing/user.go:21-122 | all ids are recorded by uuid, also when the library then refuses; nothing without an inbound |
| SharedIds.SingUsers.DelUsers | core/sing/user.go:178-218 | all given uuids leave the table, also when the library then refuses; nothing without an inbound |
| SharedIds.RunAgreesExactly | core/sing/user.go:209-211 | over every run on any number of nodes: the shared table holds exactly the listed users with their ids at every moment so far if and only if no tick so far took a user off one node's list who was on another's; core/hy2/user.go:43-62 has the same table |
| SharedIds.IdTaken | core/sing/user.go:209-211 | a run on the failing side: two nodes list a user, one goes over to another, and the user has no id on the node that still lists it |
| SharedIds.TakenIdDiscards | core/sing/user.go:155-158 | after such a tick the user is still listed on the other node, and its due counter there is thrown away unreported |
| Traffic.TrafficCounter.GetCounter | common/counter/traffic.go:21-30 | finds the user's storage or puts in a fresh zero one, and no two users share one |
| Traffic.TrafficCounter.Rx | common/counter/traffic.go:66-69 | adds to the user's download count only |
| Traffic.TrafficCounter.Tx | common/counter/traffic.go:71-74 | adds to the user's upload count only |
| Traffic.TrafficCounter.Delete | common/counter/traffic.go:62-64 | removes the user's counters only |
| Traffic.TrafficCounter.GetUserTrafficSlice | core/xray/user.go:60-94 | reports every user with an id whose total is above the threshold once with its counts, zeroes those counts, removes such users without an id, leaves the rest; core/sing/user.go and core/hy2/user.go have the same loop |
| Traffic.CollectedExactly | core/xray/user.go:71-79 | a user whose up plus down is at or below the threshold keeps its counts and is not reported; one above it is zeroed and reported if it has an id, and else gone |
| Traffic.SliceExactly | core/xray/user.go:80-84 | the slice has an entry with id, upload and download of each user above the threshold that has an id, and no other |
| Traffic.Accounted | core/xray/user.go:66-87 | for any user over any run, in each direction: stored at first plus counted is reported plus lost plus stored, where lost is exactly what is dropped with the user or due without an id |
| Traffic.Conserved | core/sing/user.go:144-165 | from any moment on, for a user that is not dropped and has an id in each collection since: stored then plus counted since is reported since plus stored, in each direction |
| Traffic.LagBounded | core/hy2/user.go:73-94 | from any moment on, for such a user: after a collection at most the threshold is unreported, both directions together, and nothing if the threshold is negative |
| TrafficRace.RunBalanced | core/xray/user.go:66-87 | in every interleaving, also with users dropped during a collection as core/hy2/user.go:48-51 does, and at every moment, per counter: counted is reported plus discarded plus stored plus in the collector's hands plus exactly what was added between a load and the zeroing after it |
| TrafficRace.ThresholdExactly | core/xray/user.go:69-84 | in every interleaving the collector zeroes, reports or discards only when the up and down counts it loaded are together above the threshold, and passes on only when they are not; what it reports is what it loaded |
| TrafficRace.DroppedForGood | common/counter/traffic.go:21-30 | after a drop or a discard no adder is ever given that storage again |
| TrafficRace.UserBalanced | core/xray/user.go:66-87 | from any moment on and at every moment after, for a user that is not dropped and has an id in each collection since: the balance of its counters since then has nothing discarded in it |
| TrafficRace.UserConserved | core/xray/user.go:66-87 | for a user that comes, or comes back, after some moment and stays since: whenever the collector is idle, all bytes counted are reported, stored, or were added between a load and the zeroing after it |
| TrafficRace.StorageStays | common/counter/traffic.go:21-30 | all adders of a user that is not dropped and keeps its id use the same counters |
| TrafficRace.NeverOverReported | core/xray/user.go:69-84 | at every moment no more is reported than was counted |
| CachedReader.CachedReader.Cache | core/xray/app/dispatcher/default.go:44-59 | appends what arrived to the cache and fills the buffer with as much of the cache as fits, the smaller of cache and capacity; on an error buffer and cache stay and bytes that came with it are dropped |
| CachedReader.CachedReader.ReadMultiBuffer | core/xray/app/dispatcher/default.go:61-90 | a cache is handed out whole and emptied with the underlying reader left alone; without one all that arrives is handed out, with its error |
| CachedReader.TransparentExactly | core/xray/app/dispatcher/default.go:44-90 | over any run, handed out then cache then rest is the original stream if and only if no look failed with bytes in its hands; each look sees a prefix of the unread part |
| CachedReader.FailedLookLoses | core/xray/app/dispatcher/default.go:44-48 | a run on the failing side: one failing look with a byte in its hands |
| CachedReader.AllDelivered | core/xray/app/dispatcher/default.go:61-81 | after as many reads that could bring something as the stream has bytes, all of it has been handed out in order, unless a look lost some |
| Sniffing.Sniffer.Sniff | core/xray/app/dispatcher/sniffer.go:58-82 | first result in list order, else no clue and the list narrowed to the undecided, else unknown content; nothing else is ever returned |
| Sniffing.Sniffer.SniffMetadata | core/xray/app/dispatcher/sniffer.go:84-109 | the same for metadata sniffers, keeping all others |
| Sniffing.ScanExactly | core/xray/app/dispatcher/sniffer.go:58-82 | by position: the first content sniffer of the network with a result decides; without one, no clue if and only if one has none yet, and exactly those stay |
| Sniffing.MetadataExactly | core/xray/app/dispatcher/sniffer.go:84-109 | by position: the first metadata sniffer with a result decides; exactly the metadata sniffers that are not pending leave the list |
| Sniffing.MetadataHidesNothing | core/xray/app/dispatcher/sniffer.go:84-109 | metadata sniffing does not change what the content scan finds or leaves |
| Sniffing.NarrowingRefines | core/xray/app/dispatcher/sniffer.go:58-82 | if definite rejections of the sniffers that apply persist, sniffing growing payloads with the narrowing list gives the outcome of the full list at each call up to the first decision |
| Sniffing.NarrowingExactly | core/xray/app/dispatcher/sniffer.go:58-82 | a sniffer may be narrowed away beside any others, for any two payloads, without a scan coming out differently if and only if its definite rejections persist |
| Sniffing.NeedMoreDataIsDropped | core/xray/app/dispatcher/sniffer.go:66-78 | a sniffer that asks for more data and would then have a result is on the failing side |
| Sniffing.SniffContent | core/xray/app/dispatcher/default.go:478-512 | when each outcome comes: timeout after two looks in vain or 200 milliseconds, cancellation, a failed look, or the first scan that decides; at most two looks, the unread stream unchanged unless a look fails with bytes in its hands, and a decision is that of the full list on a prefix of it |
| Sniffing.Session.YieldsOnce | core/xray/app/dispatcher/default.go:478-512 | for what the loop meets there is only one such outcome, after one number of looks |
| Links.ManagedWriter.Close | core/xray/app/dispatcher/linkmanager.go:19-22 | takes the writer off its manager's list and closes it |
| Links.LinkManager.CloseAll | core/xray/app/dispatcher/linkmanager.go:41-46 | ranging over the writers while each close takes one off the list, closes and interrupts each registered link exactly once and ends empty |
| Links.Dispatcher.Register | core/xray/app/dispatcher/default.go:197-211 | a new open link is on its user's list, and the registry stays exact |
| Links.Dispatcher.CloseWriter | core/xray/app/dispatcher/linkmanager.go:19-39 | closing any writer, again or after its user was dropped, keeps the registry exact |
| Links.Dispatcher.HoldsOpenWriters | core/xray/app/dispatcher/linkmanager.go:24-39 | a user's list always holds exactly the user's writers that are not closed |
| Links.Dispatcher.DropUser | core/xray/user.go:51-55 | a dropped user's open links are closed and interrupted once, no others are touched, and the user has no open writer left |
| Task.Task.Start | common/task/task.go:16-24 | the critical section of a start as a step of the protocol |
| Task.Task.Close | common/task/task.go:57-64 | the critical section of a close as a step of the protocol |
| Task.Task.FailSection | common/task/task.go:44-49 | the critical section after a failed execution as a step of the protocol |
| Task.ProtocolExactly | common/task/task.go:16-64 | in every interleaving no channel is closed twice if and only if a start is the last start, close or failure before each failure; then the task runs exactly while its stop channel is open |
| Task.NeverFailing | common/task/task.go:26-52 | with callbacks that never fail nothing is closed twice and the task runs exactly while its channel is open |
| Task.LoopEnds | common/task/task.go:37-49 | over every run a loop that has taken its stop channel or failed has finished and does nothing any more |
| Task.LoopsCounted | common/task/task.go:16-26 | each start of a task that does not run makes exactly one loop, and nothing else does |
| Task.ExecutionsCounted | common/task/task.go:26-50 | every execution that returned or is under way comes from a start that executes first or from a timer |
| Task.ClosedWindsDown | common/task/task.go:37-64 | without a later start no loop comes up, and what returns is what was under way and one execution for each timer of a loop that has not ended |
| Task.MayEndExactly | common/task/task.go:38-42 | as long as nothing is closed twice, a waiting loop can end if and only if the task does not run or it waits on the channel of an earlier start |
| Task.LateTimerPanics | common/task/task.go:37-49 | a close that finds the only loop waiting can still be followed by a double close |
| Task.OldLoopStays | common/task/task.go:37-42 | a close and a start during an execution leave two loops on the new channel |

## Left out

- The panel client, certificates, key generation, inbound and outbound builders, routing, rule matching and
  the command line: input and output, foreign libraries or field copying.
- The node-changed branch of the tick: it leaves entries of the old node behind, so it is outside the
  agreement of the views.
- RunAgrees: is stated for ticks whose core calls succeed, because a refused deletion leaves the core ahead
  of the list; what a failing tick does leave is in the contract of the controller's tick.
- AddDynamicSpeedLimit in limiter/dynamic.go has no caller.
- Limiter.Limiter.CheckLimit: is one step; interleavings of two admissions inside it are not modelled. The
  time of day and the identity of a new bucket are parameters, and user records are values in the map.
- Traffic and report totals are unbounded integers, because 64-bit overflow needs 2^63 bytes.
- Links.Dispatcher.Register: link setup is one step, so a deletion between finding the manager and adding
  the link is not modelled.
- Links.Dispatcher.DropUser: covers the links; ids and counters of a dropped user are in XrayUsers.DelUsers
  and TrafficCounter.Delete.
- SharedIds.RunAgreesExactly: is stated for ticks whose core calls succeed and for nodes of one panel, which
  gives each uuid one id.
- Json5Segments.LoneSlashHidesByte: what a lone slash before a string literal behind a comma does to the rest
  of the text is covered by the automaton only.
- Reading the text into the buffer and serving it (TrimNodeReader) add only forwarding.
- Interrupt of the cached reader, which drops the cache, is not part of the transparency statement.
- Sniffing.SniffContent: elapsed times, cancellation and arriving data are arbitrary inputs; combining the
  metadata and content results is branching on two values.
- Task goroutine scheduling has no fairness; only safety is stated.
