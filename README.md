# Replica bookkeeping of a Viewstamped-Replication backend, in Dafny

This project models one backend replica of a replicated Twitter-like service
(`BEServer/BEsrv.go`) and the front end's user map (`Data.go`). The replica keeps
a view number, a status (NORMAL, VIEWCHANGE, RECOVERING), the view in which it
was last normal, a command log whose index 0 is a sentinel, a commit index and
an operation number. It also keeps the process-wide user table that the
replication protects. Peers are fixed: N = 3.

- `wrappers.dfy` (`Wrappers`): `Option`.
- `users.dfy` (`Users`): accounts, the table as a map, the local-apply step of every
  account handler as a function, and the recovery snapshot. `TakeSnapshot` is the
  loop that builds a Recovery reply's `Data`. `Rebuild` is the loop in Prepare that
  re-installs it. `Restored` is the table that re-installing yields.
- `replica.dfy` (`Replica`): the replica record as a value, and each RPC as a pure
  transition: Prepare, Start, the replication prefix of the handlers, ViewChange,
  StartView and the PromptViewChange guard. It also holds the reply collector and
  new-view log selection as loop methods, and the lemmas.
- `server.dfy` (`Backend`): class `Server`, whose fields are the Go `server`
  struct plus the user table. Each method updates the fields in place. Each one
  that changes state is proved to produce exactly the matching `Replica`
  transition (`Abstract() == Replica.X(old(Abstract()), ...)`) and to keep
  `Valid()`.
- `data.dfy` (`Data`): class `Directory`, the front end's `userdata` map with
  `addUser`, `deleteUser` and `getPassword`.

Peer replies are inputs:
- For Start's Prepare broadcast, `acks[i]` says whether peer i's Prepare returned `Success` without error. The entry for `me` is ignored.
- For a handler's direct-apply broadcast, `applyAcks[i]` says whether peer i's call returned without error.
- For Prepare's Recovery call, the reply is an `Option`. `None` means the call failed.
- For PromptViewChange, the input is the N ViewChange outcomes in the order the collector receives them.

The invariant `Valid` says three things:
- `opNo == |log| - 1`;
- `me` is a peer index;
- every account is stored under its own user name.

It holds initially and every operation keeps it.

Behaviour the model keeps as the code has it, where the protocol's usual description says otherwise:
- **Start's commit.** `Start` never writes `commitIndex`. The handler moves it to the new index afterwards, and only if enough backups also acknowledged the direct-apply broadcast (`Replica.Replicate`).
- **Start's `view` result.** Past the guards it is Go's zero value, 0, because the named result is never assigned.
- **Prepare's commit index.** The in-order path sets `commitIndex` to `PrimaryCommit`, even when that is lower than before. Only the earlier raise is a maximum.
- **StartView.** It sets the view and NORMAL but does not install the selected log. The log and `opNo` are unchanged.
- **The backups after the first command.** On three fresh replicas, after the first command the backups hold `log[1]` but still have `commitIndex == 0`, because the primary sent `PrimaryCommit` 0 (`Replica.FirstCommandOnFreshReplicas`).
- **Recovery replies.** A Recovery reply is installed verbatim, so `currentView` can go down. The responder answers unconditionally.
- **New-view log selection.** The scan starts from the pair (0, 0). If no reply has a larger (lastNormalView, log length), the first reply is chosen (`Replica.Selected`).

## Model

| member | source | states |
|---|---|---|
| `Replica.Init` | BEServer/BEsrv.go:737-745 | The record `main` builds for a server: view 0, NORMAL, last normal view 0, log `[""]`, commit index 0, opNo 0, empty table. Its properties are in `Replica.InitValid`. |
| `Replica.Prepare` | BEServer/BEsrv.go:413-493 | The backup's whole Prepare handler: the two early rejections, the commit raise, the recovery path and the in-order append. Its properties are in `Replica.PrepareKeepsValid`, `PrepareRejectsStale`, `PrepareAppendsInOrder`, `PrepareRecovers`, `RecoveryReplacesWholesale` and `AckedBackupHoldsEntry`. |
| `Replica.PrepareRejected` | BEServer/BEsrv.go:419-425 | The two early returns of Prepare: a stale view, or an index at or below the commit index. |
| `Replica.NeedsRecovery` | BEServer/BEsrv.go:430-430 | Prepare's recovery condition: the index is not the next one, or the view is newer. |
| `Replica.PrepareFor` | BEServer/BEsrv.go:520-525 | The arguments the primary sends each backup: its view, commit index, the new index and the command. |
| `Replica.Start` | BEServer/BEsrv.go:497-558 | The primary's Start: the two guards, the unconditional append, the ack count and the reply. Its properties are in `Replica.StartRefuses`, `StartAppends`, `StartKeepsValid`, `StartQuorum` and `AcceptedEntryOnMajority`. |
| `Replica.Replicate` | BEServer/BEsrv.go:84-110 | The replication prefix shared by the four mutating handlers: Start, the "replication down" failure, then the direct-apply count that moves `commitIndex`. Its properties are in `Replica.ReplicateKeepsValid`, `ReplicateCommits` and `FirstCommandOnFreshReplicas`. |
| `Replica.RecoveryReplyOf` | BEServer/BEsrv.go:560-587 | What a Recovery responder answers: its view, log, commit index, success, and a snapshot of its table. `Backend.Server.Recovery` produces it and `Replica.RecoveryTransfersState` consumes it. |
| `Replica.ViewChange` | BEServer/BEsrv.go:708-724 | The ViewChange handler: a rejection for a view that is not newer; otherwise the old view becomes `lastNormalView` and the status becomes VIEWCHANGE. Its properties are in `Replica.ViewChangeSteps`. |
| `Replica.StartView` | BEServer/BEsrv.go:694-706 | The StartView handler: a rejection for an older view; otherwise the view and NORMAL, with the log not installed. Its properties are in `Replica.StartViewSteps`. |
| `Replica.PromptGuard` | BEServer/BEsrv.go:598-604 | PromptViewChange proceeds only on the primary of the new view, and only when that view is newer than the current one. |
| `Replica.Selected` | BEServer/BEsrv.go:674-688 | A declarative rendering of the selection scan: the first reply whose (lastNormalView, log length) is maximal and above (0, 0), or the first reply when none is above (0, 0). Its properties are in `Replica.SelectedUnique` and `SelectedIsMostRecent`, and `Replica.DetermineNewViewLog` is proved against it. |
| `Replica.StopsAt` | BEServer/BEsrv.go:636-644 | The collector's stop rule: the first reply after which all N replies are in, or `N/2+1` successes are. `Replica.CollectReplies` is proved against it. |
| `Replica.InitValid` | BEServer/BEsrv.go:737-745 | The initial replica (view 0, NORMAL, log `[""]`, opNo 0) satisfies the invariant, with `opNo == len(log)-1 == 0`. |
| `Replica.GetPrimary` | BEServer/BEsrv.go:408-410 | The primary of a view is its Go remainder modulo the peer count: strictly between `-n` and `n`, congruent to the view modulo `n`, a valid peer index for non-negative views, and non-positive for non-positive views. Together these pin the value of Go's truncating `%` for every view. |
| `Replica.PrimaryRotates` | BEServer/BEsrv.go:408-410 | Over non-negative views the primary advances by one peer per view, wrapping around, and repeats every N views. |
| `Replica.PrepareKeepsValid` | BEServer/BEsrv.go:413-493 | Every Prepare outcome keeps `opNo == len(log)-1` and a well-keyed table: the append path, the recovery path (`opNo = len(log)-1`) and the rejections. |
| `Replica.PrepareRejectsStale` | BEServer/BEsrv.go:416-425 | When `args.View < currentView` or `args.Index <= commitIndex`, the state is unchanged, the reply is `Success=false` with `View=currentView`, and there is no error. |
| `Replica.PrepareAppendsInOrder` | BEServer/BEsrv.go:426-490 | If `View == currentView`, `Index == opNo+1` and `Index > commitIndex`: the log becomes the old log plus the entry, with earlier entries unchanged, and `opNo` grows by one. `commitIndex` becomes `PrimaryCommit` even if lower, nothing else changes, and the reply is success. |
| `Replica.PrepareRecovers` | BEServer/BEsrv.go:426-481 | With `Index != opNo+1` or `View > currentView` on a request that is not stale: a successful Recovery reply installs its log, commit index, view and table verbatim, sets `opNo = len(log)-1` and NORMAL, and replies success. Otherwise the replica is left RECOVERING with the raised commit index and an error. |
| `Replica.RecoveryReplacesWholesale` | BEServer/BEsrv.go:443-469 | Recovery replaces state rather than merging it: two replicas that recover from the same reply end with the same view, status, log, commit index, opNo and table. |
| `Replica.RecoveredTableRoundTrips` | BEServer/BEsrv.go:450-466 | Taking a snapshot of a just-recovered replica's table and installing it again gives the same table, so installing twice equals installing once. |
| `Replica.RecoveryTransfersState` | BEServer/BEsrv.go:441-469 | A replica recovering from a responder's Recovery reply ends with the responder's log, opNo, commit index, view and user table, and is NORMAL. |
| `Replica.NumAcks` | BEServer/BEsrv.go:514-543 | The number of successful Prepare replies counts peers other than `me` only: it is at most the number of replies, and below it when `me` is one of the peers. |
| `Replica.NumAcksCounts` | BEServer/BEsrv.go:517-543 | The count equals the size of the set of other peers whose Prepare succeeded. |
| `Replica.StartRefuses` | BEServer/BEsrv.go:502-509 | If the status is not NORMAL, or `currentView % N != me`, Start returns `(-1, currentView, false)` and changes nothing. |
| `Replica.StartAppends` | BEServer/BEsrv.go:511-557 | Past the guards, Start always appends the command and increments opNo. `ok` holds exactly when successful replies are at least `N/2`, and `index` is the new opNo when ok and -1 otherwise. `view` is 0, `commitIndex` is untouched and the invariant holds. |
| `Replica.StartKeepsValid` | BEServer/BEsrv.go:512-513 | Start keeps `opNo == len(log)-1`. |
| `Replica.QuorumsIntersect` | BEServer/BEsrv.go:546-549 | Any two sets of at least `N/2+1` peers share a peer. |
| `Replica.StartQuorum` | BEServer/BEsrv.go:545-551 | The counting fact: when Start accepts, the primary together with the backups whose acknowledgement was counted makes a set of at least `N/2+1` peers. |
| `Replica.AckedBackupHoldsEntry` | BEServer/BEsrv.go:430-490 | A backup that answers the primary's Prepare with success holds the command at the primary's new index. This covers both paths: the in-order append, and a recovery whose reply comes from the primary of the view after its log was extended (lines 434, 441, 512, 564). |
| `Replica.AcceptedEntryOnMajority` | BEServer/BEsrv.go:511-551 | Suppose every counted acknowledgement comes from a backup whose Prepare succeeded. Uncounted backups are unconstrained: a reply lost at lines 536-538 may leave a backup holding the entry without being counted. Then an accepted Start leaves its command at the same index on at least `N/2+1` peers, the primary included. |
| `Replica.LostReplyStillOnMajority` | BEServer/BEsrv.go:528-551 | On three fresh replicas, take the first command. Backup 2's Prepare succeeds but its reply is lost, so only backup 1 is counted. Start still accepts, and the command is on at least `N/2+1` peers. |
| `Replica.AcceptedEntriesMeet` | BEServer/BEsrv.go:545-551 | Take two accepted Starts, each counting only backups whose Prepare succeeded. The peer sets holding their commands share a peer. This follows from `AcceptedEntryOnMajority` and `QuorumsIntersect`. |
| `Replica.BackupFollowsPrimary` | BEServer/BEsrv.go:517-531 | A backup with the primary's view and log accepts the Prepare the primary sends, provided its commit index is at most the primary's opNo. It ends with the primary's new log and opNo, and takes the primary's commit index. |
| `Replica.ReplicateKeepsValid` | BEServer/BEsrv.go:84-110 | A handler's replication prefix keeps the invariant and does not touch the user table. |
| `Replica.ReplicateCommits` | BEServer/BEsrv.go:104-106 | When the prefix confirms a mutation, the log has gained exactly that command. `commitIndex` is then the index of the command if at least `N/2` direct applies succeeded, and unchanged otherwise. |
| `Replica.FirstCommandOnFreshReplicas` | BEServer/BEsrv.go:84-106 | Three fresh replicas with node 0 primary and both backups reachable: "REG alice" is accepted at index 1 and node 0 commits it. Both backups hold it at index 1, and their commit index is still 0. |
| `Replica.ViewChangeSteps` | BEServer/BEsrv.go:708-724 | ViewChange with `View <= currentView` fails and changes nothing. Otherwise it replies with the old view and the log, sets `lastNormalView` to the old view, `currentView` to `View` and VIEWCHANGE, and leaves the log, opNo and commit index alone. |
| `Replica.StartViewSteps` | BEServer/BEsrv.go:694-706 | StartView with `View < currentView` fails and changes nothing. Otherwise it sets the view and NORMAL only: the log and opNo stay as they were, whatever log it was sent. |
| `Replica.SelectedUnique` | BEServer/BEsrv.go:674-688 | New-view selection is deterministic: at most one reply is the selected one. |
| `Replica.SelectedIsMostRecent` | BEServer/BEsrv.go:677-688 | When some reply is above (0, 0), the selected reply has the highest lastNormalView and, among those, the longest log. |
| `Replica.DetermineNewViewLog` | BEServer/BEsrv.go:666-692 | It returns `ok=false` (and no log) exactly when there are fewer than `(N-1)/2+1` replies. Otherwise it returns the log of the first reply with maximal (lastNormalView, log length). |
| `Replica.NewViewLogExample` | BEServer/BEsrv.go:666-692 | The replies (1,[a]), (2,[a,b]), (2,[a,b,c]) select [a,b,c], and no other choice is possible. |
| `Replica.Successes` | BEServer/BEsrv.go:636-640 | The collected successes are successful replies that actually arrived, no more of them than arrivals. |
| `Replica.CollectReplies` | BEServer/BEsrv.go:632-644 | The collector stops at the first reply after which all N replies are in, or `N/2+1` successes are. It returns the successes up to that point, never more than `N/2+1`. |
| `Replica.CollectedQuorum` | BEServer/BEsrv.go:635-648 | What was collected reaches selection's quorum exactly when a majority of all N ViewChange calls succeeded. |
| `Users.Register` | BEServer/BEsrv.go:113-125 | Register's local apply: an error for a taken name, otherwise a fresh account. Its properties are in `Users.RegisterExisting`, `RegisterFresh` and `GetPasswordAfterRegister`. |
| `Users.Login` | BEServer/BEsrv.go:128-140 | Login: no such user, success on a matching password, or wrong password. Its properties are in `Users.LoginSucceedsExactly`. |
| `Users.AddTweet` | BEServer/BEsrv.go:188-198 | AddTweet's local apply: no such user, or the text appended to the user's tweets. Its properties are in `Users.AddTweetAppends`. |
| `Users.UserExists` | BEServer/BEsrv.go:217-226 | UserExists: success for a known name, otherwise no such user. `Backend.Server.UserExists` states this directly. |
| `Users.DeleteUser` | BEServer/BEsrv.go:279-281 | DeleteUser's local apply: the name removed from the table. Its properties are in `Users.DeleteUserRemovesOnly`. |
| `Users.FollowUser` | BEServer/BEsrv.go:332-343 | FollowUser's local apply: an error for each missing user, otherwise the followed name added to the follower's set. Its properties are in `Users.FollowUserNeedsBoth`. |
| `Users.ToFollow` | BEServer/BEsrv.go:352-360 | The names UsersToFollow reports: every user not yet followed, except the user itself. Its properties are in `Users.ToFollowExcludesSelfAndFollowed`. |
| `Users.GetPassword` | Data.go:55-64 | `getPassword`: `(false, "No such User")` for a missing name, otherwise `(true, password)`. Its properties are in `Users.GetPasswordMissing` and `GetPasswordAfterRegister`. |
| `Users.Decode` | BEServer/BEsrv.go:453-463 | The account that re-installing one snapshot row creates: name, password, tweets in order, follows as a set. |
| `Users.IsSnapshotOf` | BEServer/BEsrv.go:569-587 | What Recovery's `Data` is for a table: every account exactly once, each row a faithful copy, in any order. `Users.TakeSnapshot` is proved to produce one. |
| `Users.Restored` | BEServer/BEsrv.go:450-466 | The table that installing `Data` row by row yields, a later row replacing an earlier one. `Users.Rebuild` is proved to compute it. Its properties are in `Users.RestoredLookup`, `RestoredWellKeyed` and `SnapshotRoundTrip`. |
| `Users.RegisterExisting` | Data.go:34-38 | Registering a taken name is an error and leaves the table unchanged. |
| `Users.RegisterFresh` | Data.go:39-43 | Registering a new name succeeds. The entry holds that password, no tweets and an empty follows set, and every other entry is unchanged. |
| `Users.GetPasswordMissing` | Data.go:57-61 | `getPassword` of a missing user is `(false, "No such User")`. |
| `Users.GetPasswordAfterRegister` | Data.go:55-64 | After registering a fresh `u` with `p`, `getPassword(u)` is `(true, p)` and Login with `p` succeeds. |
| `Users.LoginSucceedsExactly` | BEServer/BEsrv.go:128-139 | Login succeeds exactly when the user exists with that password, and reports "no such user" exactly when the user is missing. |
| `Users.DeleteUserRemovesOnly` | Data.go:47-52 | After deletion the name is absent and every other entry is unchanged. Deleting twice equals deleting once. |
| `Users.AddTweetAppends` | BEServer/BEsrv.go:188-198 | AddTweet succeeds exactly for an existing user. It appends the text to that user's tweets and changes nothing else. A missing user leaves the table unchanged. |
| `Users.FollowUserNeedsBoth` | BEServer/BEsrv.go:332-343 | FollowUser succeeds exactly when both users exist, and each missing one has its own error. On success it adds the followed name to the follower's set only. |
| `Users.ToFollowExcludesSelfAndFollowed` | BEServer/BEsrv.go:352-360 | The users to follow are all users except those already followed and the user itself. |
| `Users.HandlersKeepWellKeyed` | BEServer/BEsrv.go:113-125 | All four local applies keep every account stored under its own name: Register (lines 113-125), AddTweet (188-198), DeleteUser (279-281) and FollowUser (332-343). |
| `Users.TakeSnapshot` | BEServer/BEsrv.go:568-587 | Recovery's data lists every account exactly once, in any order. Each row has the account's name, password, tweets in order, and each followed user once, in any order. |
| `Users.Rebuild` | BEServer/BEsrv.go:449-466 | The install loop yields exactly `Restored(data)`: rows added in order, a later row with the same name replacing an earlier one. |
| `Users.RestoredLookup` | BEServer/BEsrv.go:450-466 | A name is in the installed table exactly when some row carries it. With distinct names, its account is that row's decoding. |
| `Users.RestoredWellKeyed` | BEServer/BEsrv.go:453-465 | An installed table stores every account under its own name. |
| `Users.SnapshotRoundTrip` | BEServer/BEsrv.go:569-587 | Installing any snapshot of a table rebuilds exactly that table, with the same users, passwords, ordered tweets and follows sets. |
| `Users.SnapshotIdempotent` | BEServer/BEsrv.go:450-450 | The table is replaced, never merged: snapshotting an installed table and installing the result again gives the same table. |
| `Backend.CountAcks` | BEServer/BEsrv.go:514-543 | The counting loop over the peers returns `NumAcks`: the peers other than `me` that replied successfully. |
| `Backend.Server.constructor` | BEServer/BEsrv.go:737-745 | A new server is the initial replica for its index and satisfies the invariant. |
| `Backend.Server.Prepare` | BEServer/BEsrv.go:413-493 | In place, the fields, reply and error become exactly `Replica.Prepare` of the old fields, and the invariant is kept. |
| `Backend.Server.Start` | BEServer/BEsrv.go:497-558 | In place, the fields and `(index, view, ok)` become exactly `Replica.Start` of the old fields, and the invariant is kept. |
| `Backend.Server.Replicate` | BEServer/BEsrv.go:84-110 | The replication prefix of a handler performs `Replica.Replicate` in place. |
| `Backend.Server.Recovery` | BEServer/BEsrv.go:560-592 | The reply carries this replica's view, log and commit index, success, and a snapshot of its table. |
| `Backend.Server.ViewChange` | BEServer/BEsrv.go:708-724 | In place, the fields, reply and error become exactly `Replica.ViewChange` of the old fields. |
| `Backend.Server.StartView` | BEServer/BEsrv.go:694-706 | In place, the fields and error become exactly `Replica.StartView` of the old fields. |
| `Backend.Server.PromptViewChange` | BEServer/BEsrv.go:594-664 | Success holds exactly when this node is primary of the newer view. When the guard fails, the call is a no-op and no StartView is produced. Past the guard, a StartView for that view is produced exactly when a majority of ViewChange calls succeeded. Its log is the one selected from the collected replies. |
| `Backend.Server.Register` | BEServer/BEsrv.go:79-126 | If replication fails, the error is "replication down" and only the replica fields move. Otherwise the table and reply are `Users.Register`'s. |
| `Backend.Server.Login` | BEServer/BEsrv.go:128-140 | The reply is `Users.Login` of the table. |
| `Backend.Server.AddTweet` | BEServer/BEsrv.go:142-199 | The replication prefix (with failure reported as "replication down"), then `Users.AddTweet`. |
| `Backend.Server.UserExists` | BEServer/BEsrv.go:217-226 | Success exactly when the user is in the table; otherwise the error is "no such user". |
| `Backend.Server.DeleteUser` | BEServer/BEsrv.go:228-283 | The replication prefix, then removal of the name, always replying success. |
| `Backend.Server.FollowUser` | BEServer/BEsrv.go:285-345 | The replication prefix, then `Users.FollowUser`. |
| `Backend.Server.UsersToFollow` | BEServer/BEsrv.go:347-365 | `None` exactly for a missing user. Otherwise a duplicate-free list, in map-iteration order, whose elements are exactly `Users.ToFollow`. |
| `Data.Directory.constructor` | Data.go:10-10 | The map starts empty. |
| `Data.Directory.AddUser` | Data.go:33-44 | Returns 0 and leaves the map unchanged for a taken name. Otherwise returns 1 and inserts a fresh account. |
| `Data.Directory.DeleteUser` | Data.go:47-52 | Returns 1 and removes the name. |
| `Data.Directory.GetPassword` | Data.go:55-64 | The result is `(false, "No such User")` for a missing user and `(true, password)` otherwise. |

## Left out

- Network transport: the gRPC server loop, dialing, `context.WithTimeout` and the `peerRPC` calls. Every peer reply is an input of the model.
- Process bootstrap in `main`: argument parsing, the port list and the listener. The peer count is the constant N = 3.
- The mutex, the goroutines and the channel of PromptViewChange, and the lock-free StartView, ViewChange and Recovery handlers. These are concurrency. Only the guard, the sequential stop rule of the collector and the selection are modelled. The StartView broadcast is returned as an output rather than sent.
- The direct-apply re-broadcast loops of Register, AddTweet, DeleteUser and FollowUser. These are network calls. Only their count test, which sets `commitIndex`, is kept, with the replies as `applyAcks`.
- The command string `in.String()`: protobuf text serialisation, not modelled. It is a parameter.
- The peer that Prepare asks for recovery (the primary of `args.View`) is not chosen by the model: its reply is the input. A negative view would make the source index out of range.
- The arguments of a Recovery request (view, requesting server): the responder ignores them.
- Backend.Server.PromptViewChange: the ViewChange broadcast includes the initiator itself, so in the source its own `currentView`, `lastNormalView` and status change during the call. The model does not apply that step here: it is the separate `Replica.ViewChange` transition (`Backend.Server.ViewChange`), and the initiator's arrival is an input like the others.
- Backend.Server.PromptViewChange: when the guard fails, the source returns a nil reply and a nil error. The model reports `success = false`.
- int32 narrowing conversions on the wire: values are taken to be in range.
- Debug printing, `SayHello`, `SayHelloAgain`, `HeartBeat`, `WhoIsPrimary`, `OwnTweets`, `GetFriendsTweets` and `deleteCookie`. These are diagnostics, reads outside the named core, and HTTP handling.
- Go map iteration order is nondeterministic. It appears in Recovery's `Data` and follow lists and in UsersToFollow. The model lets the loops pick elements in any order, and states the results as sets or as "each element exactly once".
- A tweet is represented by its text; the one-field `tweet` struct and `pb.Tweet` are not separate types.
