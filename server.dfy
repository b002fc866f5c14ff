/**
 * The backend server object: the replica record, updated in place under each
 * RPC, together with the process's user table. Every state-changing method is
 * proved to perform the matching transition of module Replica.
 */
module Backend {
  import opened Wrappers
  import Users
  import Replica

  /** Counts the peers other than `me` whose reply succeeded, as the broadcast loops do. */
  method CountAcks(acks: seq<bool>, me: int) returns (count: nat)
    ensures count == Replica.NumAcks(acks, me)
  {
    count := 0;
    for i := 0 to |acks|
      invariant count == Replica.NumAcks(acks[..i], me)
    {
      assert acks[..i + 1][..i] == acks[..i];
      if i != me && acks[i] {
        count := count + 1;
      }
    }
    assert acks[..|acks|] == acks;
  }

  class Server {
    const me: int
    var currentView: int
    var status: Replica.Status
    var lastNormalView: int
    var log: seq<string>
    var commitIndex: int
    var opNo: int
    var userdata: Users.Table

    /** The fields as a Replica.State. */
    function Abstract(): Replica.State
      reads this
    {
      Replica.State(me, currentView, status, lastNormalView, log, commitIndex, opNo, userdata)
    }

    predicate Valid()
      reads this
    {
      Replica.Valid(Abstract())
    }

    constructor (serverID: int)
      requires 0 <= serverID < Replica.N
      ensures Valid() && Abstract() == Replica.Init(serverID)
    {
      me := serverID;
      currentView := 0;
      lastNormalView := 0;
      status := Replica.Normal;
      opNo := 0;
      log := [""];
      commitIndex := 0;
      userdata := map[];
    }

    // -------------------------------------------------------------------------
    // Replication

    /** Prepare; `recovery` is the reply of the Recovery call to the primary of `args.view`, `None` if it failed. */
    method Prepare(args: Replica.PrepareArgs, recovery: Option<Replica.RecoveryReply>)
      returns (reply: Replica.PrepareReply, err: bool)
      requires Valid()
      modifies this
      ensures Valid()
      ensures Replica.Prepare(old(Abstract()), args, recovery) == Replica.PrepareResult(Abstract(), reply, err)
    {
      Replica.PrepareKeepsValid(Abstract(), args, recovery);
      reply := Replica.PrepareReply(currentView, false);
      err := false;
      if args.view < currentView {
        return;
      }
      if args.index <= commitIndex {
        return;
      }
      if args.primaryCommit > commitIndex {
        commitIndex := args.primaryCommit;
      }
      if args.index != opNo + 1 || args.view > currentView {
        status := Replica.Recovering;
        if recovery.Some? && recovery.value.success {
          var r := recovery.value;
          log := r.entries;
          commitIndex := r.primaryCommit;
          currentView := r.view;
          userdata := Users.Rebuild(r.data);
          status := Replica.Normal;
          opNo := |log| - 1;
          reply := reply.(success := true);
          return;
        }
        err := true;
        return;
      }
      if args.index == |log| {
        log := log + [args.entry];
        opNo := opNo + 1;
        commitIndex := args.primaryCommit;
        reply := reply.(success := true);
      }
    }

    /** Start; `acks[i]` is whether peer i's Prepare (Replica.PrepareFor of the pre-append state) succeeded. */
    method Start(command: string, acks: seq<bool>) returns (index: int, view: int, ok: bool)
      requires Valid() && |acks| == Replica.N
      modifies this
      ensures Valid()
      ensures Replica.Start(old(Abstract()), command, acks) == Replica.StartResult(Abstract(), index, view, ok)
    {
      view := 0;
      if status != Replica.Normal {
        return -1, currentView, false;
      } else if Replica.GetPrimary(currentView, Replica.N) != me {
        return -1, currentView, false;
      }
      log := log + [command];
      opNo := opNo + 1;
      var count := CountAcks(acks, me);
      var length := Replica.N;
      if count >= length / 2 {
        ok := true;
        index := opNo;
      } else {
        index := -1;
        ok := false;
      }
    }

    /** The replication prefix shared by the four mutating handlers. */
    method Replicate(broadcast: bool, command: string, prepareAcks: seq<bool>, applyAcks: seq<bool>) returns (ok: bool)
      requires Valid() && |prepareAcks| == Replica.N && |applyAcks| == Replica.N
      modifies this
      ensures Valid()
      ensures Replica.Replicate(old(Abstract()), broadcast, command, prepareAcks, applyAcks) == Replica.Replication(Abstract(), ok)
    {
      ok := true;
      if broadcast {
        var index, view, started := Start(command, prepareAcks);
        if !started {
          return false;
        }
        var count := CountAcks(applyAcks, me);
        if count >= Replica.N / 2 {
          commitIndex := index;
        }
      }
    }

    /** Recovery: this replica's view, log, commit point and a snapshot of its table, unconditionally. */
    method Recovery() returns (reply: Replica.RecoveryReply)
      requires Valid()
      ensures Replica.RecoveryReplyOf(reply, Abstract())
    {
      var data := Users.TakeSnapshot(userdata);
      reply := Replica.RecoveryReply(currentView, true, log, commitIndex, data);
    }

    // -------------------------------------------------------------------------
    // View change

    method ViewChange(view: int) returns (reply: Replica.ViewChangeReply, err: bool)
      requires Valid()
      modifies this
      ensures Valid()
      ensures Replica.ViewChange(old(Abstract()), view) == Replica.ViewChangeResult(Abstract(), reply, err)
    {
      reply := Replica.ViewChangeReply(false, 0, []);
      if view <= currentView {
        return reply, true;
      }
      reply := Replica.ViewChangeReply(true, currentView, log);
      err := false;
      lastNormalView := currentView;
      currentView := view;
      status := Replica.ChangingView;
    }

    /** StartView as written: `args.log` is not installed. */
    method StartView(args: Replica.StartViewArgs) returns (err: bool)
      requires Valid()
      modifies this
      ensures Valid()
      ensures Replica.StartView(old(Abstract()), args) == Replica.StartViewResult(Abstract(), err)
    {
      if currentView > args.view {
        return true;
      }
      currentView := args.view;
      status := Replica.Normal;
      err := false;
    }

    /**
     * PromptViewChange: the guard, the reply collector and new-view selection.
     * `arrivals` are the N ViewChange outcomes in the order they reach the
     * collector (`None` for a failed call); `startView` is the StartView to
     * broadcast, if any.
     */
    method PromptViewChange(newView: int, arrivals: seq<Option<Replica.ViewChangeReply>>)
      returns (success: bool, startView: Option<Replica.StartViewArgs>)
      requires |arrivals| == Replica.N
      ensures success <==> Replica.PromptGuard(Abstract(), newView)
      ensures !success ==> startView.None?
      ensures success ==> (startView.Some? <==> |Replica.Successes(arrivals)| >= Replica.Majority)
      ensures startView.Some? ==> startView.value.view == newView && Replica.ChosenFrom(arrivals, startView.value.log)
    {
      var newPrimary := Replica.GetPrimary(newView, Replica.N);
      if newPrimary != me {
        return false, None;
      } else if newView <= currentView {
        return false, None;
      }
      var successReplies := Replica.CollectReplies(arrivals);
      ghost var k :| Replica.StopsAt(arrivals, k) && successReplies == Replica.Successes(arrivals[..k]);
      Replica.CollectedQuorum(arrivals, k);
      var ok, newLog := Replica.DetermineNewViewLog(successReplies);
      success := true;
      startView := if ok then Some(Replica.StartViewArgs(newView, newLog)) else None;
    }

    // -------------------------------------------------------------------------
    // User handlers: replication prefix, then the local apply

    method Register(uname: string, pwd: string, broadcast: bool, command: string,
                    prepareAcks: seq<bool>, applyAcks: seq<bool>) returns (outcome: Users.Outcome)
      requires Valid() && |prepareAcks| == Replica.N && |applyAcks| == Replica.N
      modifies this
      ensures Valid()
      ensures var rep := Replica.Replicate(old(Abstract()), broadcast, command, prepareAcks, applyAcks);
        var local := Users.Register(old(userdata), uname, pwd);
        if rep.ok then Abstract() == rep.next.(userdata := local.table) && outcome == local.outcome
        else Abstract() == rep.next && outcome == Users.Fail(Users.ReplicationDown)
    {
      var replicated := Replicate(broadcast, command, prepareAcks, applyAcks);
      if !replicated {
        return Users.Fail(Users.ReplicationDown);
      }
      if uname in userdata {
        return Users.Fail(Users.AlreadyExists);
      }
      userdata := userdata[uname := Users.User(uname, pwd, [], {})];
      outcome := Users.Ok;
    }

    method Login(uname: string, pwd: string) returns (outcome: Users.Outcome)
      ensures outcome == Users.Login(userdata, uname, pwd)
    {
      if uname !in userdata {
        return Users.Fail(Users.NoSuchUser);
      }
      if pwd == userdata[uname].password {
        return Users.Ok;
      } else {
        return Users.Fail(Users.WrongPassword);
      }
    }

    method AddTweet(username: string, text: string, broadcast: bool, command: string,
                    prepareAcks: seq<bool>, applyAcks: seq<bool>) returns (outcome: Users.Outcome)
      requires Valid() && |prepareAcks| == Replica.N && |applyAcks| == Replica.N
      modifies this
      ensures Valid()
      ensures var rep := Replica.Replicate(old(Abstract()), broadcast, command, prepareAcks, applyAcks);
        var local := Users.AddTweet(old(userdata), username, text);
        if rep.ok then Abstract() == rep.next.(userdata := local.table) && outcome == local.outcome
        else Abstract() == rep.next && outcome == Users.Fail(Users.ReplicationDown)
    {
      var replicated := Replicate(broadcast, command, prepareAcks, applyAcks);
      if !replicated {
        return Users.Fail(Users.ReplicationDown);
      }
      if username !in userdata {
        return Users.Fail(Users.NoSuchUser);
      }
      var user := userdata[username];
      user := user.(tweets := user.tweets + [text]);
      userdata := userdata[username := user];
      outcome := Users.Ok;
    }

    method UserExists(username: string) returns (outcome: Users.Outcome)
      ensures outcome == Users.UserExists(userdata, username)
      ensures outcome == Users.Ok <==> username in userdata
      ensures outcome != Users.Ok ==> outcome == Users.Fail(Users.NoSuchUser)
    {
      if username !in userdata {
        return Users.Fail(Users.NoSuchUser);
      } else {
        return Users.Ok;
      }
    }

    method DeleteUser(uname: string, broadcast: bool, command: string,
                      prepareAcks: seq<bool>, applyAcks: seq<bool>) returns (outcome: Users.Outcome)
      requires Valid() && |prepareAcks| == Replica.N && |applyAcks| == Replica.N
      modifies this
      ensures Valid()
      ensures var rep := Replica.Replicate(old(Abstract()), broadcast, command, prepareAcks, applyAcks);
        if rep.ok then Abstract() == rep.next.(userdata := Users.DeleteUser(old(userdata), uname)) && outcome == Users.Ok
        else Abstract() == rep.next && outcome == Users.Fail(Users.ReplicationDown)
    {
      var replicated := Replicate(broadcast, command, prepareAcks, applyAcks);
      if !replicated {
        return Users.Fail(Users.ReplicationDown);
      }
      userdata := userdata - {uname};
      outcome := Users.Ok;
    }

    method FollowUser(selfUsername: string, toFollowUsername: string, broadcast: bool, command: string,
                      prepareAcks: seq<bool>, applyAcks: seq<bool>) returns (outcome: Users.Outcome)
      requires Valid() && |prepareAcks| == Replica.N && |applyAcks| == Replica.N
      modifies this
      ensures Valid()
      ensures var rep := Replica.Replicate(old(Abstract()), broadcast, command, prepareAcks, applyAcks);
        var local := Users.FollowUser(old(userdata), selfUsername, toFollowUsername);
        if rep.ok then Abstract() == rep.next.(userdata := local.table) && outcome == local.outcome
        else Abstract() == rep.next && outcome == Users.Fail(Users.ReplicationDown)
    {
      var replicated := Replicate(broadcast, command, prepareAcks, applyAcks);
      if !replicated {
        return Users.Fail(Users.ReplicationDown);
      }
      if selfUsername !in userdata {
        return Users.Fail(Users.NoSelfUser);
      }
      var user := userdata[selfUsername];
      if toFollowUsername !in userdata {
        return Users.Fail(Users.NoFollowUser);
      }
      userdata := userdata[selfUsername := user.(follows := user.follows + {toFollowUsername})];
      outcome := Users.Ok;
    }

    /** UsersToFollow: the names, in map-iteration order; `None` when the user does not exist. */
    method UsersToFollow(username: string) returns (names: Option<seq<string>>)
      ensures names.None? <==> username !in userdata
      ensures names.Some? ==>
        Users.Distinct(names.value) && (set v | v in names.value) == Users.ToFollow(userdata, username)
    {
      if username !in userdata {
        return None;
      }
      var user := userdata[username];
      var list: seq<string> := [];
      var left := userdata.Keys;
      while left != {}
        invariant left <= userdata.Keys
        invariant Users.Distinct(list)
        invariant (set v | v in list) == Users.ToFollow(userdata, username) - left
        decreases left
      {
        var eachUser :| eachUser in left;
        if eachUser !in user.follows && eachUser != user.username {
          assert eachUser !in (set v | v in list);
          assert (set v | v in list + [eachUser]) == (set v | v in list) + {eachUser};
          list := list + [eachUser];
        }
        left := left - {eachUser};
      }
      return Some(list);
    }
  }
}
