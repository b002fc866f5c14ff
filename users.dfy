/**
 * The in-memory user table that the backend replicates: a map from user name to
 * account, the local-apply half of the account handlers, and the snapshot that a
 * recovering replica fetches (`Recovery`) and re-installs (`Prepare`).
 */
module Users {
  import opened Wrappers

  /** An account. A tweet is represented by its text; `follows` is the key set of the source's `map[string]bool`. */
  datatype User = User(username: string, password: string, tweets: seq<string>, follows: set<string>)

  type Table = map<string, User>

  /** Every account is stored under its own user name; all handlers keep this. */
  predicate WellKeyed(t: Table) {
    forall k :: k in t ==> t[k].username == k
  }

  /** A freshly registered account: no tweets, follows nobody. */
  function NewUser(u: string, p: string): User {
    User(u, p, [], {})
  }

  /** The errors the handlers return. */
  datatype Error =
    | ReplicationDown   // Start or the quorum failed
    | AlreadyExists     // "user already exists"
    | NoSuchUser        // "no such User" / "no such user exists" / "User does not exist!"
    | WrongPassword     // "wrong password"
    | NoSelfUser        // "Selfuser does not exist"
    | NoFollowUser      // "ToFollow user does not exist"

  datatype Outcome = Ok | Fail(error: Error)

  /** The table after a handler, and what the handler replied. */
  datatype Step = Step(table: Table, outcome: Outcome)

  // ---------------------------------------------------------------------------
  // Local-apply halves of the handlers

  function Register(t: Table, u: string, p: string): Step {
    if u in t then Step(t, Fail(AlreadyExists)) else Step(t[u := NewUser(u, p)], Ok)
  }

  function Login(t: Table, u: string, p: string): Outcome {
    if u !in t then Fail(NoSuchUser)
    else if p == t[u].password then Ok
    else Fail(WrongPassword)
  }

  function AddTweet(t: Table, u: string, text: string): Step {
    if u !in t then Step(t, Fail(NoSuchUser))
    else Step(t[u := t[u].(tweets := t[u].tweets + [text])], Ok)
  }

  function UserExists(t: Table, u: string): Outcome {
    if u in t then Ok else Fail(NoSuchUser)
  }

  function DeleteUser(t: Table, u: string): Table {
    t - {u}
  }

  function FollowUser(t: Table, self: string, other: string): Step {
    if self !in t then Step(t, Fail(NoSelfUser))
    else if other !in t then Step(t, Fail(NoFollowUser))
    else Step(t[self := t[self].(follows := t[self].follows + {other})], Ok)
  }

  /** The users `u` may still follow: everyone not followed yet, except `u` itself. */
  function ToFollow(t: Table, u: string): set<string>
    requires u in t
  {
    set v | v in t && v !in t[u].follows && v != t[u].username
  }

  /** Data.go's `getPassword`. */
  function GetPassword(t: Table, u: string): (bool, string) {
    if u !in t then (false, "No such User") else (true, t[u].password)
  }

  // ---------------------------------------------------------------------------
  // Properties of the table operations

  lemma RegisterExisting(t: Table, u: string, p: string)
    requires u in t
    ensures Register(t, u, p) == Step(t, Fail(AlreadyExists))
  {
  }

  lemma RegisterFresh(t: Table, u: string, p: string)
    requires u !in t
    ensures var r := Register(t, u, p);
      && r.outcome == Ok
      && r.table.Keys == t.Keys + {u}
      && r.table[u] == User(u, p, [], {})
      && forall k :: k in t ==> r.table[k] == t[k]
  {
  }

  lemma GetPasswordMissing(t: Table, u: string)
    requires u !in t
    ensures GetPassword(t, u) == (false, "No such User")
  {
  }

  lemma GetPasswordAfterRegister(t: Table, u: string, p: string)
    requires u !in t
    ensures GetPassword(Register(t, u, p).table, u) == (true, p)
    ensures Login(Register(t, u, p).table, u, p) == Ok
  {
  }

  lemma LoginSucceedsExactly(t: Table, u: string, p: string)
    ensures Login(t, u, p) == Ok <==> u in t && t[u].password == p
    ensures Login(t, u, p) == Fail(NoSuchUser) <==> u !in t
  {
  }

  lemma DeleteUserRemovesOnly(t: Table, u: string)
    ensures u !in DeleteUser(t, u)
    ensures forall k :: k in t && k != u ==> k in DeleteUser(t, u) && DeleteUser(t, u)[k] == t[k]
    ensures DeleteUser(t, u).Keys == t.Keys - {u}
    ensures DeleteUser(DeleteUser(t, u), u) == DeleteUser(t, u)
  {
  }

  lemma AddTweetAppends(t: Table, u: string, text: string)
    ensures AddTweet(t, u, text).outcome == Ok <==> u in t
    ensures u in t ==> var r := AddTweet(t, u, text).table;
      && r.Keys == t.Keys
      && r[u].tweets == t[u].tweets + [text]
      && r[u].password == t[u].password && r[u].follows == t[u].follows
      && forall k :: k in t && k != u ==> r[k] == t[k]
    ensures u !in t ==> AddTweet(t, u, text).table == t
  {
  }

  lemma FollowUserNeedsBoth(t: Table, self: string, other: string)
    ensures FollowUser(t, self, other).outcome == Ok <==> self in t && other in t
    ensures self !in t ==> FollowUser(t, self, other) == Step(t, Fail(NoSelfUser))
    ensures self in t && other !in t ==> FollowUser(t, self, other) == Step(t, Fail(NoFollowUser))
    ensures self in t && other in t ==> var r := FollowUser(t, self, other).table;
      && r.Keys == t.Keys
      && r[self].follows == t[self].follows + {other}
      && r[self].tweets == t[self].tweets
      && forall k :: k in t && k != self ==> r[k] == t[k]
  {
  }

  lemma ToFollowExcludesSelfAndFollowed(t: Table, u: string)
    requires WellKeyed(t) && u in t
    ensures u !in ToFollow(t, u)
    ensures ToFollow(t, u) == t.Keys - t[u].follows - {u}
  {
  }

  /** Every handler keeps each account under its own name. */
  lemma HandlersKeepWellKeyed(t: Table, u: string, v: string, p: string)
    requires WellKeyed(t)
    ensures WellKeyed(Register(t, u, p).table)
    ensures WellKeyed(AddTweet(t, u, p).table)
    ensures WellKeyed(DeleteUser(t, u))
    ensures WellKeyed(FollowUser(t, u, v).table)
  {
  }

  // ---------------------------------------------------------------------------
  // Recovery snapshot

  /** One element of a recovery reply's `Data`: the wire form of an account. */
  datatype UserData = UserData(username: string, password: string, tweetList: seq<string>, follows: seq<string>)

  predicate Distinct<T(==)>(s: seq<T>) {
    forall i, j :: 0 <= i < j < |s| ==> s[i] != s[j]
  }

  /** The account that re-installing one snapshot row creates. */
  function Decode(row: UserData): User {
    User(row.username, row.password, row.tweetList, set f | f in row.follows)
  }

  /** `row` lists `user` faithfully: tweets in order, each followed user once, in any order. */
  predicate Encodes(row: UserData, user: User) {
    && row.username == user.username
    && row.password == user.password
    && row.tweetList == user.tweets
    && Distinct(row.follows)
    && (set f | f in row.follows) == user.follows
  }

  /**
   * `d` lists every account of `t` exactly once, in the (unspecified) order of
   * the source's map iteration.
   */
  predicate IsSnapshotOf(d: seq<UserData>, t: Table) {
    && (forall i :: 0 <= i < |d| ==> d[i].username in t && Encodes(d[i], t[d[i].username]))
    && (forall i, j :: 0 <= i < j < |d| ==> d[i].username != d[j].username)
    && (forall k :: k in t ==> exists i :: 0 <= i < |d| && d[i].username == k)
  }

  /** The table that re-installing `d` row by row yields; a later row replaces an earlier one. */
  function Restored(d: seq<UserData>): Table {
    if d == [] then map[]
    else Restored(d[..|d| - 1])[d[|d| - 1].username := Decode(d[|d| - 1])]
  }

  /**
   * Recovery's build loop: one row per account, tweets copied in order, follows
   * listed in arbitrary order (the source iterates Go maps).
   */
  method TakeSnapshot(t: Table) returns (d: seq<UserData>)
    requires WellKeyed(t)
    ensures IsSnapshotOf(d, t)
  {
    d := [];
    var left := t.Keys;
    while left != {}
      invariant left <= t.Keys
      invariant forall i :: 0 <= i < |d| ==> d[i].username in t.Keys - left && Encodes(d[i], t[d[i].username])
      invariant forall i, j :: 0 <= i < j < |d| ==> d[i].username != d[j].username
      invariant forall k :: k in t.Keys - left ==> exists i :: 0 <= i < |d| && d[i].username == k
      decreases left
    {
      var key :| key in left;
      var value := t[key];
      var tweetList: seq<string> := [];
      var j := 0;
      while j < |value.tweets|
        invariant 0 <= j <= |value.tweets|
        invariant tweetList == value.tweets[..j]
      {
        tweetList := tweetList + [value.tweets[j]];
        j := j + 1;
      }
      var follows: seq<string> := [];
      var pending := value.follows;
      while pending != {}
        invariant pending <= value.follows
        invariant Distinct(follows)
        invariant (set f | f in follows) == value.follows - pending
        decreases pending
      {
        var f :| f in pending;
        assert f !in (set g | g in follows);
        assert (set g | g in follows + [f]) == (set g | g in follows) + {f};
        follows := follows + [f];
        pending := pending - {f};
      }
      assert value.tweets[..|value.tweets|] == value.tweets;
      ghost var before, leftBefore := d, left;
      d := d + [UserData(value.username, value.password, tweetList, follows)];
      left := left - {key};
      forall k | k in t.Keys - left
        ensures exists i :: 0 <= i < |d| && d[i].username == k
      {
        if k == key {
          assert d[|d| - 1].username == k;
        } else {
          assert k in t.Keys - leftBefore;
          var i :| 0 <= i < |before| && before[i].username == k;
          assert d[i] == before[i];
        }
      }
    }
    assert t.Keys - left == t.Keys;
  }

  /** Prepare's install loop: start from an empty table and add the rows in order. */
  method Rebuild(d: seq<UserData>) returns (t: Table)
    ensures t == Restored(d)
  {
    t := map[];
    var i := 0;
    while i < |d|
      invariant 0 <= i <= |d|
      invariant t == Restored(d[..i])
    {
      var row := d[i];
      var user := User(row.username, row.password, [], {});
      var j := 0;
      while j < |row.tweetList|
        invariant 0 <= j <= |row.tweetList|
        invariant user == User(row.username, row.password, row.tweetList[..j], {})
      {
        user := user.(tweets := user.tweets + [row.tweetList[j]]);
        j := j + 1;
      }
      assert row.tweetList[..|row.tweetList|] == row.tweetList;
      j := 0;
      while j < |row.follows|
        invariant 0 <= j <= |row.follows|
        invariant user == User(row.username, row.password, row.tweetList, set f | f in row.follows[..j])
      {
        assert row.follows[..j + 1] == row.follows[..j] + [row.follows[j]];
        user := user.(follows := user.follows + {row.follows[j]});
        j := j + 1;
      }
      assert row.follows[..|row.follows|] == row.follows;
      t := t[user.username := user];
      assert d[..i + 1][..i] == d[..i];
      i := i + 1;
    }
    assert d[..|d|] == d;
  }

  /** Which names a re-installed table holds, and what each maps to. */
  lemma {:induction false} RestoredLookup(d: seq<UserData>, k: string)
    ensures k in Restored(d) <==> exists i :: 0 <= i < |d| && d[i].username == k
    ensures (forall i, j :: 0 <= i < j < |d| ==> d[i].username != d[j].username) ==>
      forall i :: 0 <= i < |d| && d[i].username == k ==> Restored(d)[k] == Decode(d[i])
  {
    if d != [] {
      var front := d[..|d| - 1];
      RestoredLookup(front, k);
      assert forall i :: 0 <= i < |front| ==> front[i] == d[i];
      if k != d[|d| - 1].username {
        assert (exists i :: 0 <= i < |d| && d[i].username == k) ==>
          exists i :: 0 <= i < |front| && front[i].username == k;
      }
    }
  }

  /** A re-installed table stores every account under its own name. */
  lemma {:induction false} RestoredWellKeyed(d: seq<UserData>)
    ensures WellKeyed(Restored(d))
  {
    if d != [] {
      RestoredWellKeyed(d[..|d| - 1]);
    }
  }

  /** Re-installing a snapshot of `t` rebuilds exactly `t`. */
  lemma SnapshotRoundTrip(t: Table, d: seq<UserData>)
    requires WellKeyed(t) && IsSnapshotOf(d, t)
    ensures Restored(d) == t
  {
    var r := Restored(d);
    forall k
      ensures k in r <==> k in t
      ensures k in t ==> r[k] == t[k]
    {
      RestoredLookup(d, k);
      if k in t {
        var i :| 0 <= i < |d| && d[i].username == k;
        assert Encodes(d[i], t[k]);
      }
    }
  }

  /** Installing represents full replacement: snapshotting an installed table and installing again changes nothing. */
  lemma SnapshotIdempotent(d: seq<UserData>, d': seq<UserData>)
    requires IsSnapshotOf(d', Restored(d))
    ensures Restored(d') == Restored(d)
  {
    RestoredWellKeyed(d);
    SnapshotRoundTrip(Restored(d), d');
  }
}
