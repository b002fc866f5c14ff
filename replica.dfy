/**
 * The replication bookkeeping of one Viewstamped-Replication replica, as pure
 * state transitions. Every peer reply is an input: a list of booleans for the
 * Prepare and direct-apply broadcasts, an optional Recovery reply, and the
 * ViewChange replies in the order the collector receives them.
 */
module Replica {
  import opened Wrappers
  import Users

  /** Number of peers: the static list `:50051`, `:50052`, `:50053`. */
  const N: nat := 3

  /** Successful ViewChange replies after which the collector stops waiting. */
  const Majority: nat := N / 2 + 1

  /** Successful ViewChange replies that new-view log selection needs. */
  const QuorumSize: nat := (N - 1) / 2 + 1

  datatype Status = Normal | ChangingView | Recovering

  /** The `server` record; `userdata` is the backend process's user table, which Recovery replaces. */
  datatype State = State(
    me: int,
    currentView: int,
    status: Status,
    lastNormalView: int,
    log: seq<string>,
    commitIndex: int,
    opNo: int,
    userdata: Users.Table)

  /** The state a replica starts in: view 0, NORMAL, a one-entry sentinel log. */
  function Init(me: int): State {
    State(me, 0, Normal, 0, [""], 0, 0, map[])
  }

  /** The invariant every operation keeps: `opNo` indexes the last log entry. */
  predicate Valid(s: State) {
    && 0 <= s.me < N
    && s.opNo == |s.log| - 1
    && Users.WellKeyed(s.userdata)
  }

  lemma InitValid(me: int)
    requires 0 <= me < N
    ensures Valid(Init(me))
    ensures Init(me).opNo == |Init(me).log| - 1 == 0
  {
  }

  // ---------------------------------------------------------------------------
  // Primary selection

  /** `view % nservers` with Go's remainder, which takes the sign of `view`. */
  function GetPrimary(view: int, nservers: int): (p: int)
    requires nservers > 0
    ensures -nservers < p < nservers
    ensures view >= 0 ==> 0 <= p
    ensures view <= 0 ==> p <= 0
    ensures (view - p) % nservers == 0
  {
    if view >= 0 then
      var q := view / nservers;
      assert view - view % nservers == q * nservers;
      MultipleModZero(q, nservers);
      view % nservers
    else
      var q := (-view) / nservers;
      assert view + (-view) % nservers == (-q) * nservers;
      MultipleModZero(-q, nservers);
      -((-view) % nservers)
  }

  /** A multiple of `n` leaves remainder 0. */
  lemma MultipleModZero(k: int, n: int)
    requires n > 0
    ensures (k * n) % n == 0
  {
    var q, r := (k * n) / n, (k * n) % n;
    assert (k - q) * n == r;
    // r lies in [0, n), so the factor k - q can be neither positive nor negative.
    if k - q >= 1 {
      assert false;
    } else if k - q <= -1 {
      assert false;
    }
  }

  /** Over non-negative views the primary moves round-robin through the peers. */
  lemma PrimaryRotates(view: int)
    requires view >= 0
    ensures GetPrimary(view + 1, N) == (GetPrimary(view, N) + 1) % N
    ensures GetPrimary(view + N, N) == GetPrimary(view, N)
  {
  }

  // ---------------------------------------------------------------------------
  // Prepare (backup side)

  datatype PrepareArgs = PrepareArgs(view: int, primaryCommit: int, index: int, entry: string)
  datatype PrepareReply = PrepareReply(view: int, success: bool)
  datatype RecoveryReply = RecoveryReply(
    view: int, success: bool, entries: seq<string>, primaryCommit: int, data: seq<Users.UserData>)

  /** The state after Prepare, its reply, and whether it also returned an error. */
  datatype PrepareResult = PrepareResult(next: State, reply: PrepareReply, err: bool)

  /** Prepare is turned away: stale view, or an index already committed. */
  predicate PrepareRejected(s: State, a: PrepareArgs) {
    a.view < s.currentView || a.index <= s.commitIndex
  }

  /** The replica cannot append in order and must fetch state from the primary of `a.view`. */
  predicate NeedsRecovery(s: State, a: PrepareArgs) {
    a.index != s.opNo + 1 || a.view > s.currentView
  }

  /** `rec` is the reply of the Recovery call to the primary of `a.view`; `None` if the call failed. */
  function Prepare(s: State, a: PrepareArgs, rec: Option<RecoveryReply>): PrepareResult {
    var rejected := PrepareReply(s.currentView, false);
    if PrepareRejected(s, a) then PrepareResult(s, rejected, false)
    else
      var raised := if a.primaryCommit > s.commitIndex then s.(commitIndex := a.primaryCommit) else s;
      if NeedsRecovery(s, a) then
        if rec.Some? && rec.value.success then
          var r := rec.value;
          PrepareResult(
            raised.(log := r.entries, commitIndex := r.primaryCommit, currentView := r.view,
                    userdata := Users.Restored(r.data), status := Normal, opNo := |r.entries| - 1),
            PrepareReply(s.currentView, true), false)
        else
          PrepareResult(raised.(status := Recovering), rejected, true)
      else if a.index == |s.log| then
        PrepareResult(
          raised.(log := s.log + [a.entry], opNo := s.opNo + 1, commitIndex := a.primaryCommit),
          PrepareReply(s.currentView, true), false)
      else
        PrepareResult(raised, rejected, false)
  }

  lemma PrepareKeepsValid(s: State, a: PrepareArgs, rec: Option<RecoveryReply>)
    requires Valid(s)
    ensures Valid(Prepare(s, a, rec).next)
  {
    if rec.Some? {
      Users.RestoredWellKeyed(rec.value.data);
    }
  }

  lemma PrepareRejectsStale(s: State, a: PrepareArgs, rec: Option<RecoveryReply>)
    requires a.view < s.currentView || a.index <= s.commitIndex
    ensures Prepare(s, a, rec) == PrepareResult(s, PrepareReply(s.currentView, false), false)
  {
  }

  lemma PrepareAppendsInOrder(s: State, a: PrepareArgs, rec: Option<RecoveryReply>)
    requires Valid(s)
    requires a.view == s.currentView && a.index == s.opNo + 1 && a.index > s.commitIndex
    ensures var r := Prepare(s, a, rec);
      && r.next.log == s.log + [a.entry]
      && (forall i :: 0 <= i < |s.log| ==> r.next.log[i] == s.log[i])
      && r.next.opNo == s.opNo + 1
      && r.next.commitIndex == a.primaryCommit
      && r.next == s.(log := r.next.log, opNo := r.next.opNo, commitIndex := r.next.commitIndex)
      && r.reply == PrepareReply(s.currentView, true)
      && !r.err
  {
  }

  lemma PrepareRecovers(s: State, a: PrepareArgs, rec: Option<RecoveryReply>)
    requires !PrepareRejected(s, a) && NeedsRecovery(s, a)
    ensures var r := Prepare(s, a, rec);
      if rec.Some? && rec.value.success then
        && r.next.log == rec.value.entries
        && r.next.commitIndex == rec.value.primaryCommit
        && r.next.currentView == rec.value.view
        && r.next.opNo == |rec.value.entries| - 1
        && r.next.status == Normal
        && r.next.userdata == Users.Restored(rec.value.data)
        && r.next.me == s.me && r.next.lastNormalView == s.lastNormalView
        && r.reply == PrepareReply(s.currentView, true) && !r.err
      else
        && r.next == s.(status := Recovering,
                        commitIndex := if a.primaryCommit > s.commitIndex then a.primaryCommit else s.commitIndex)
        && r.reply == PrepareReply(s.currentView, false) && r.err
  {
  }

  /** Recovery replaces the log, commit point, view and table wholesale: the old values do not matter. */
  lemma RecoveryReplacesWholesale(s: State, t: State, a: PrepareArgs, b: PrepareArgs, rec: RecoveryReply)
    requires !PrepareRejected(s, a) && NeedsRecovery(s, a)
    requires !PrepareRejected(t, b) && NeedsRecovery(t, b)
    requires rec.success
    ensures var x, y := Prepare(s, a, Some(rec)).next, Prepare(t, b, Some(rec)).next;
      x.(me := 0, lastNormalView := 0) == y.(me := 0, lastNormalView := 0)
  {
  }

  /** A successfully recovered replica, snapshotting its table, reproduces that table; a second install changes nothing. */
  lemma RecoveredTableRoundTrips(s: State, a: PrepareArgs, rec: RecoveryReply, d: seq<Users.UserData>)
    requires !PrepareRejected(s, a) && NeedsRecovery(s, a) && rec.success
    requires Users.IsSnapshotOf(d, Prepare(s, a, Some(rec)).next.userdata)
    ensures Users.Restored(d) == Prepare(s, a, Some(rec)).next.userdata
  {
    Users.SnapshotIdempotent(rec.data, d);
  }

  /** `rec` is what `responder` answers to Recovery: its view, log, commit point and a snapshot of its table. */
  predicate RecoveryReplyOf(rec: RecoveryReply, responder: State) {
    && rec.view == responder.currentView
    && rec.success
    && rec.entries == responder.log
    && rec.primaryCommit == responder.commitIndex
    && Users.IsSnapshotOf(rec.data, responder.userdata)
  }

  /** A replica that recovers from `responder`'s reply ends with the responder's log, commit point, view and table. */
  lemma RecoveryTransfersState(responder: State, s: State, a: PrepareArgs, rec: RecoveryReply)
    requires Valid(responder) && RecoveryReplyOf(rec, responder)
    requires !PrepareRejected(s, a) && NeedsRecovery(s, a)
    ensures var r := Prepare(s, a, Some(rec)).next;
      && r.log == responder.log && r.opNo == responder.opNo
      && r.commitIndex == responder.commitIndex && r.currentView == responder.currentView
      && r.userdata == responder.userdata && r.status == Normal
  {
    Users.SnapshotRoundTrip(responder.userdata, rec.data);
  }

  // ---------------------------------------------------------------------------
  // Start (primary side)

  /** How many peers other than `me` acknowledged: `acks[i]` is peer i's Prepare outcome. */
  function NumAcks(acks: seq<bool>, me: int): (c: nat)
    ensures c <= |acks|
    ensures 0 <= me < |acks| ==> c < |acks|
  {
    if acks == [] then 0
    else NumAcks(acks[..|acks| - 1], me) + (if |acks| - 1 != me && acks[|acks| - 1] then 1 else 0)
  }

  /** The peers other than `me` that acknowledged. */
  function Ackers(acks: seq<bool>, me: int): set<int> {
    set i | 0 <= i < |acks| && i != me && acks[i]
  }

  lemma {:induction false} NumAcksCounts(acks: seq<bool>, me: int)
    ensures NumAcks(acks, me) == |Ackers(acks, me)|
  {
    if acks != [] {
      var front := acks[..|acks| - 1];
      NumAcksCounts(front, me);
      if |acks| - 1 != me && acks[|acks| - 1] {
        assert Ackers(acks, me) == Ackers(front, me) + {|acks| - 1};
      } else {
        assert Ackers(acks, me) == Ackers(front, me);
      }
    }
  }

  /** The Prepare the primary sends every backup after appending `command`. */
  function PrepareFor(s: State, command: string): PrepareArgs {
    PrepareArgs(s.currentView, s.commitIndex, s.opNo + 1, command)
  }

  datatype StartResult = StartResult(next: State, index: int, view: int, ok: bool)

  /** Start; the `view` result keeps Go's zero value past the guards, as the source never assigns it. */
  function Start(s: State, command: string, acks: seq<bool>): StartResult
    requires |acks| == N
  {
    if s.status != Normal || GetPrimary(s.currentView, N) != s.me then
      StartResult(s, -1, s.currentView, false)
    else
      var next := s.(log := s.log + [command], opNo := s.opNo + 1);
      if NumAcks(acks, s.me) >= N / 2 then StartResult(next, next.opNo, 0, true)
      else StartResult(next, -1, 0, false)
  }

  lemma StartRefuses(s: State, command: string, acks: seq<bool>)
    requires |acks| == N
    requires s.status != Normal || GetPrimary(s.currentView, N) != s.me
    ensures Start(s, command, acks) == StartResult(s, -1, s.currentView, false)
  {
  }

  lemma StartAppends(s: State, command: string, acks: seq<bool>)
    requires Valid(s) && |acks| == N
    requires s.status == Normal && GetPrimary(s.currentView, N) == s.me
    ensures var r := Start(s, command, acks);
      && r.next == s.(log := s.log + [command], opNo := s.opNo + 1)
      && r.next.commitIndex == s.commitIndex
      && (r.ok <==> NumAcks(acks, s.me) >= N / 2)
      && r.index == (if r.ok then r.next.opNo else -1)
      && r.view == 0
      && Valid(r.next)
  {
  }

  lemma StartKeepsValid(s: State, command: string, acks: seq<bool>)
    requires Valid(s) && |acks| == N
    ensures Valid(Start(s, command, acks).next)
  {
  }

  /** The node indices. */
  function Peers(): (r: set<int>)
    ensures forall i :: i in r <==> 0 <= i < N
  {
    {0, 1, 2}
  }

  /** Any two sets of at least `Majority` nodes share a node. */
  lemma QuorumsIntersect(a: set<int>, b: set<int>)
    requires a <= Peers() && b <= Peers()
    requires |a| >= Majority && |b| >= Majority
    ensures a * b != {}
  {
    var u := a + b;
    assert u <= Peers();
    SubsetCard(u, Peers());
    assert |u| + |a * b| == |a| + |b|;
  }

  lemma SubsetCard(u: set<int>, w: set<int>)
    requires u <= w
    ensures |u| <= |w|
  {
    assert w == u + (w - u);
  }

  /** An accepted Start leaves the entry on a majority: the primary and its acknowledging backups. */
  lemma StartQuorum(s: State, command: string, acks: seq<bool>)
    requires Valid(s) && |acks| == N && Start(s, command, acks).ok
    ensures {s.me} + Ackers(acks, s.me) <= Peers()
    ensures |{s.me} + Ackers(acks, s.me)| >= Majority
  {
    NumAcksCounts(acks, s.me);
    assert s.me !in Ackers(acks, s.me);
  }

  /** A backup in step with the primary accepts its Prepare and ends with the primary's new log. */
  lemma BackupFollowsPrimary(p: State, b: State, command: string, acks: seq<bool>, rec: Option<RecoveryReply>)
    requires Valid(p) && Valid(b) && |acks| == N
    requires p.status == Normal && GetPrimary(p.currentView, N) == p.me
    requires b.currentView == p.currentView && b.log == p.log && b.commitIndex <= p.opNo
    ensures var r := Prepare(b, PrepareFor(p, command), rec);
      && r.reply.success
      && r.next.log == Start(p, command, acks).next.log
      && r.next.opNo == Start(p, command, acks).next.opNo
      && r.next.commitIndex == p.commitIndex
  {
  }

  /** `log` holds `command` at position `index`. */
  predicate HoldsAt(log: seq<string>, index: int, command: string) {
    0 <= index < |log| && log[index] == command
  }

  /**
   * A backup that acknowledges the primary's Prepare holds the entry at the
   * primary's new index, whichever path it took: the in-order append, or a
   * recovery from the primary of the view, whose reply already carries the
   * extended log.
   */
  lemma AckedBackupHoldsEntry(p: State, b: State, command: string, acks: seq<bool>, rec: Option<RecoveryReply>)
    requires Valid(p) && Valid(b) && |acks| == N
    requires p.status == Normal && GetPrimary(p.currentView, N) == p.me
    requires rec.Some? ==> RecoveryReplyOf(rec.value, Start(p, command, acks).next)
    ensures var r := Prepare(b, PrepareFor(p, command), rec);
      r.reply.success ==> HoldsAt(r.next.log, |p.log|, command)
  {
  }

  /** The primary and every backup whose Prepare outcome left `command` at the primary's new index. */
  function Holders(p: State, command: string, backups: seq<State>, recs: seq<Option<RecoveryReply>>): set<int>
    requires |backups| == N && |recs| == N
  {
    {p.me} + set i | 0 <= i < N && i != p.me
                     && HoldsAt(Prepare(backups[i], PrepareFor(p, command), recs[i]).next.log, |p.log|, command)
  }

  /**
   * When every counted acknowledgement comes from a backup whose Prepare
   * succeeded (and every recovery reply comes from the extended primary), an
   * accepted Start leaves its entry at the same index on a majority of the peers.
   * A backup whose reply was lost may hold the entry without being counted.
   */
  lemma AcceptedEntryOnMajority(p: State, command: string, acks: seq<bool>,
                                backups: seq<State>, recs: seq<Option<RecoveryReply>>)
    requires Valid(p) && |acks| == N && |backups| == N && |recs| == N
    requires Start(p, command, acks).ok
    requires forall i :: 0 <= i < N ==> Valid(backups[i])
    requires forall i :: 0 <= i < N && recs[i].Some? ==> RecoveryReplyOf(recs[i].value, Start(p, command, acks).next)
    requires forall i :: 0 <= i < N && i != p.me && acks[i] ==>
               Prepare(backups[i], PrepareFor(p, command), recs[i]).reply.success
    ensures HoldsAt(Start(p, command, acks).next.log, |p.log|, command)
    ensures Holders(p, command, backups, recs) <= Peers()
    ensures |Holders(p, command, backups, recs)| >= Majority
  {
    StartQuorum(p, command, acks);
    var holders := Holders(p, command, backups, recs);
    forall i | i in Ackers(acks, p.me)
      ensures i in holders
    {
      AckedBackupHoldsEntry(p, backups[i], command, acks, recs[i]);
    }
    SubsetCard({p.me} + Ackers(acks, p.me), holders);
  }

  /**
   * On three fresh replicas, backup 2 appends the first command but its reply is
   * lost: only backup 1 is counted, Start still accepts, and the command is on a
   * majority.
   */
  lemma LostReplyStillOnMajority()
    ensures var cmd := "REG alice";
      && Start(Init(0), cmd, [false, true, false]).ok
      && Prepare(Init(2), PrepareFor(Init(0), cmd), None).reply.success
      && |Holders(Init(0), cmd, [Init(0), Init(1), Init(2)], [None, None, None])| >= Majority
  {
    var cmd := "REG alice";
    assert GetPrimary(0, N) == 0;
    assert NumAcks([false, true, false], 0) == 1;
    AcceptedEntryOnMajority(Init(0), cmd, [false, true, false], [Init(0), Init(1), Init(2)], [None, None, None]);
  }

  /**
   * Two accepted Starts, each counting only backups whose Prepare in its own
   * round succeeded, leave their commands on sets of peers that share a peer.
   */
  lemma AcceptedEntriesMeet(p: State, c: string, acks: seq<bool>, bs: seq<State>, recs: seq<Option<RecoveryReply>>,
                            q: State, d: string, acks': seq<bool>, bs': seq<State>, recs': seq<Option<RecoveryReply>>)
    requires Valid(p) && |acks| == N && |bs| == N && |recs| == N
    requires Start(p, c, acks).ok
    requires forall i :: 0 <= i < N ==> Valid(bs[i])
    requires forall i :: 0 <= i < N && recs[i].Some? ==> RecoveryReplyOf(recs[i].value, Start(p, c, acks).next)
    requires forall i :: 0 <= i < N && i != p.me && acks[i] ==> Prepare(bs[i], PrepareFor(p, c), recs[i]).reply.success
    requires Valid(q) && |acks'| == N && |bs'| == N && |recs'| == N
    requires Start(q, d, acks').ok
    requires forall i :: 0 <= i < N ==> Valid(bs'[i])
    requires forall i :: 0 <= i < N && recs'[i].Some? ==> RecoveryReplyOf(recs'[i].value, Start(q, d, acks').next)
    requires forall i :: 0 <= i < N && i != q.me && acks'[i] ==> Prepare(bs'[i], PrepareFor(q, d), recs'[i]).reply.success
    ensures Holders(p, c, bs, recs) * Holders(q, d, bs', recs') != {}
  {
    AcceptedEntryOnMajority(p, c, acks, bs, recs);
    AcceptedEntryOnMajority(q, d, acks', bs', recs');
    QuorumsIntersect(Holders(p, c, bs, recs), Holders(q, d, bs', recs'));
  }

  // ---------------------------------------------------------------------------
  // Client mutations: Start, then the direct-apply count that sets commitIndex

  datatype Replication = Replication(next: State, ok: bool)

  /**
   * The replication prefix of Register/AddTweet/DeleteUser/FollowUser. With
   * `broadcast` unset nothing happens; otherwise Start runs, and if it succeeds
   * the backups' direct-apply replies `applyAcks` decide whether `commitIndex`
   * moves to the new index.
   */
  function Replicate(s: State, broadcast: bool, command: string, prepareAcks: seq<bool>, applyAcks: seq<bool>): Replication
    requires |prepareAcks| == N && |applyAcks| == N
  {
    if !broadcast then Replication(s, true)
    else
      var st := Start(s, command, prepareAcks);
      if !st.ok then Replication(st.next, false)
      else if NumAcks(applyAcks, s.me) >= N / 2 then Replication(st.next.(commitIndex := st.index), true)
      else Replication(st.next, true)
  }

  lemma ReplicateKeepsValid(s: State, broadcast: bool, command: string, prepareAcks: seq<bool>, applyAcks: seq<bool>)
    requires Valid(s) && |prepareAcks| == N && |applyAcks| == N
    ensures Valid(Replicate(s, broadcast, command, prepareAcks, applyAcks).next)
    ensures Replicate(s, broadcast, command, prepareAcks, applyAcks).next.userdata == s.userdata
  {
  }

  /** A confirmed mutation commits exactly the entry it appended. */
  lemma ReplicateCommits(s: State, command: string, prepareAcks: seq<bool>, applyAcks: seq<bool>)
    requires Valid(s) && |prepareAcks| == N && |applyAcks| == N
    requires Replicate(s, true, command, prepareAcks, applyAcks).ok
    ensures var r := Replicate(s, true, command, prepareAcks, applyAcks).next;
      && r.log == s.log + [command]
      && r.commitIndex == (if NumAcks(applyAcks, s.me) >= N / 2 then |s.log| else s.commitIndex)
  {
  }

  /**
   * Three fresh replicas, node 0 primary of view 0, both backups reachable:
   * "REG alice" lands at index 1 everywhere and node 0 commits it. The backups
   * received PrimaryCommit 0, so their commitIndex is still 0.
   */
  lemma FirstCommandOnFreshReplicas()
    ensures
      var cmd := "REG alice";
      var b1 := Prepare(Init(1), PrepareFor(Init(0), cmd), None);
      var b2 := Prepare(Init(2), PrepareFor(Init(0), cmd), None);
      var st := Start(Init(0), cmd, [false, b1.reply.success, b2.reply.success]);
      var rep := Replicate(Init(0), true, cmd, [false, b1.reply.success, b2.reply.success], [false, true, true]);
      && st.index == 1 && st.ok
      && rep.ok && rep.next.commitIndex == 1 && rep.next.log == ["", cmd]
      && b1.next.log == ["", cmd] && b2.next.log == ["", cmd]
      && b1.next.commitIndex == 0 && b2.next.commitIndex == 0
  {
    assert GetPrimary(0, N) == 0;
    assert NumAcks([false, true, true], 0) == 2;
  }

  // ---------------------------------------------------------------------------
  // View change

  datatype ViewChangeReply = ViewChangeReply(success: bool, lastNormalView: int, log: seq<string>)
  datatype ViewChangeResult = ViewChangeResult(next: State, reply: ViewChangeReply, err: bool)

  function ViewChange(s: State, view: int): ViewChangeResult {
    if view <= s.currentView then ViewChangeResult(s, ViewChangeReply(false, 0, []), true)
    else
      ViewChangeResult(
        s.(lastNormalView := s.currentView, currentView := view, status := ChangingView),
        ViewChangeReply(true, s.currentView, s.log), false)
  }

  lemma ViewChangeSteps(s: State, view: int)
    requires Valid(s)
    ensures var r := ViewChange(s, view);
      && Valid(r.next)
      && r.next.log == s.log && r.next.opNo == s.opNo && r.next.commitIndex == s.commitIndex
      && (view <= s.currentView ==> r.next == s && !r.reply.success && r.err)
      && (view > s.currentView ==>
            && r.reply == ViewChangeReply(true, s.currentView, s.log) && !r.err
            && r.next.lastNormalView == s.currentView < r.next.currentView == view
            && r.next.status == ChangingView)
  {
  }

  datatype StartViewArgs = StartViewArgs(view: int, log: seq<string>)
  datatype StartViewResult = StartViewResult(next: State, err: bool)

  /** StartView as written: the adopted log in `args` is not installed. */
  function StartView(s: State, args: StartViewArgs): StartViewResult {
    if s.currentView > args.view then StartViewResult(s, true)
    else StartViewResult(s.(currentView := args.view, status := Normal), false)
  }

  lemma StartViewSteps(s: State, args: StartViewArgs)
    requires Valid(s)
    ensures var r := StartView(s, args);
      && Valid(r.next)
      && r.next.log == s.log && r.next.opNo == s.opNo && r.next.commitIndex == s.commitIndex
      && (args.view < s.currentView ==> r.next == s && r.err)
      && (args.view >= s.currentView ==>
            r.next == s.(currentView := args.view, status := Normal) && !r.err)
  {
  }

  /** Only the primary-elect of a newer view starts a view change. */
  predicate PromptGuard(s: State, newView: int) {
    GetPrimary(newView, N) == s.me && newView > s.currentView
  }

  /** `r`'s (lastNormalView, log length) is lexicographically above (`view`, `length`). */
  predicate Above(r: ViewChangeReply, view: int, length: int) {
    r.lastNormalView > view || (r.lastNormalView == view && |r.log| > length)
  }

  /**
   * The reply new-view selection picks: the first whose (lastNormalView, log
   * length) is maximal, provided that maximum is above the scan's starting point
   * (0, 0); if no reply is above (0, 0), the first reply.
   */
  predicate Selected(rs: seq<ViewChangeReply>, i: int) {
    && 0 <= i < |rs|
    && (|| (&& Above(rs[i], 0, 0)
            && (forall j :: 0 <= j < |rs| ==> !Above(rs[j], rs[i].lastNormalView, |rs[i].log|))
            && (forall j :: 0 <= j < i ==> Above(rs[i], rs[j].lastNormalView, |rs[j].log|)))
        || (i == 0 && forall j :: 0 <= j < |rs| ==> !Above(rs[j], 0, 0)))
  }

  lemma SelectedUnique(rs: seq<ViewChangeReply>, i: int, j: int)
    requires Selected(rs, i) && Selected(rs, j)
    ensures i == j
  {
  }

  /** A selected reply above (0, 0) has the highest lastNormalView and, among those, the longest log. */
  lemma SelectedIsMostRecent(rs: seq<ViewChangeReply>, i: int)
    requires Selected(rs, i)
    requires exists j :: 0 <= j < |rs| && Above(rs[j], 0, 0)
    ensures forall j :: 0 <= j < |rs| ==> rs[j].lastNormalView <= rs[i].lastNormalView
    ensures forall j :: 0 <= j < |rs| && rs[j].lastNormalView == rs[i].lastNormalView ==> |rs[j].log| <= |rs[i].log|
  {
  }

  /** determineNewViewLog: the log of the selected reply, if at least `QuorumSize` replies arrived. */
  method DetermineNewViewLog(successReplies: seq<ViewChangeReply>) returns (ok: bool, log: seq<string>)
    ensures ok <==> |successReplies| >= QuorumSize
    ensures !ok ==> log == []
    ensures ok ==> exists i :: Selected(successReplies, i) && log == successReplies[i].log
  {
    if |successReplies| < QuorumSize {
      return false, [];
    }
    var index, maxView, maxLength := 0, 0, 0;
    for i := 0 to |successReplies|
      invariant 0 <= index < |successReplies|
      invariant 0 <= maxView && 0 <= maxLength
      invariant forall j :: 0 <= j < i ==> !Above(successReplies[j], maxView, maxLength)
      invariant || (maxView == 0 && maxLength == 0 && index == 0)
                || (&& index < i
                    && Above(successReplies[index], 0, 0)
                    && successReplies[index].lastNormalView == maxView
                    && |successReplies[index].log| == maxLength
                    && forall j :: 0 <= j < index ==>
                         Above(successReplies[index], successReplies[j].lastNormalView, |successReplies[j].log|))
    {
      var reply := successReplies[i];
      if reply.lastNormalView > maxView {
        index, maxView, maxLength := i, reply.lastNormalView, |reply.log|;
      }
      if reply.lastNormalView == maxView && |reply.log| > maxLength {
        index, maxView, maxLength := i, reply.lastNormalView, |reply.log|;
      }
    }
    assert Selected(successReplies, index);
    return true, successReplies[index].log;
  }

  /** The example replies (1, [a]), (2, [a, b]), (2, [a, b, c]) select [a, b, c]. */
  lemma NewViewLogExample()
    ensures var rs := [ViewChangeReply(true, 1, ["a"]), ViewChangeReply(true, 2, ["a", "b"]),
                       ViewChangeReply(true, 2, ["a", "b", "c"])];
      && Selected(rs, 2)
      && forall i :: Selected(rs, i) ==> rs[i].log == ["a", "b", "c"]
  {
    var rs := [ViewChangeReply(true, 1, ["a"]), ViewChangeReply(true, 2, ["a", "b"]),
               ViewChangeReply(true, 2, ["a", "b", "c"])];
    assert Selected(rs, 2);
    forall i | Selected(rs, i) ensures rs[i].log == ["a", "b", "c"] {
      SelectedUnique(rs, i, 2);
    }
  }

  /** The successful replies among `arrivals`, in arrival order. */
  function Successes(arrivals: seq<Option<ViewChangeReply>>): (r: seq<ViewChangeReply>)
    ensures |r| <= |arrivals|
    ensures forall x :: x in r ==> x.success && Some(x) in arrivals
  {
    if arrivals == [] then []
    else
      var last := arrivals[|arrivals| - 1];
      Successes(arrivals[..|arrivals| - 1]) + (if last.Some? && last.value.success then [last.value] else [])
  }

  /** The collector stops after the `k`-th reply: all N arrived, or `Majority` successes. */
  predicate StopsAt(arrivals: seq<Option<ViewChangeReply>>, k: int) {
    && 1 <= k <= |arrivals|
    && (k == N || |Successes(arrivals[..k])| == Majority)
    && forall j :: 1 <= j < k ==> j != N && |Successes(arrivals[..j])| != Majority
  }

  /** PromptViewChange's reply collector; each of the N senders delivers exactly one reply. */
  method CollectReplies(arrivals: seq<Option<ViewChangeReply>>) returns (successReplies: seq<ViewChangeReply>)
    requires |arrivals| == N
    ensures |successReplies| <= Majority
    ensures exists k :: StopsAt(arrivals, k) && successReplies == Successes(arrivals[..k])
  {
    successReplies := [];
    var nReplies := 0;
    var stop := false;
    while !stop
      invariant 0 <= nReplies <= N
      invariant successReplies == Successes(arrivals[..nReplies])
      invariant stop <==> 1 <= nReplies && (nReplies == N || |successReplies| == Majority)
      invariant |successReplies| <= Majority
      invariant forall j :: 1 <= j < nReplies ==> j != N && |Successes(arrivals[..j])| != Majority
      decreases N - nReplies
    {
      var r := arrivals[nReplies];
      assert arrivals[..nReplies + 1] == arrivals[..nReplies] + [r];
      nReplies := nReplies + 1;
      if r.Some? && r.value.success {
        successReplies := successReplies + [r.value];
      }
      stop := nReplies == N || |successReplies| == Majority;
    }
    assert StopsAt(arrivals, nReplies);
  }

  lemma {:induction false} SuccessesOfPrefix(arrivals: seq<Option<ViewChangeReply>>, k: int)
    requires 0 <= k <= |arrivals|
    ensures |Successes(arrivals[..k])| <= |Successes(arrivals)|
    decreases |arrivals|
  {
    if k < |arrivals| {
      var front := arrivals[..|arrivals| - 1];
      assert front[..k] == arrivals[..k];
      SuccessesOfPrefix(front, k);
    } else {
      assert arrivals[..k] == arrivals;
    }
  }

  /** The collected replies meet new-view selection's quorum exactly when a majority of all replies succeeded. */
  lemma CollectedQuorum(arrivals: seq<Option<ViewChangeReply>>, k: int)
    requires |arrivals| == N && StopsAt(arrivals, k)
    ensures |Successes(arrivals[..k])| >= QuorumSize <==> |Successes(arrivals)| >= Majority
  {
    SuccessesOfPrefix(arrivals, k);
    if k == N {
      assert arrivals[..k] == arrivals;
    }
  }

  /** The log PromptViewChange broadcasts in StartView for these arrivals. */
  ghost predicate ChosenFrom(arrivals: seq<Option<ViewChangeReply>>, log: seq<string>) {
    exists k, i :: StopsAt(arrivals, k) && Selected(Successes(arrivals[..k]), i) && log == Successes(arrivals[..k])[i].log
  }
}
