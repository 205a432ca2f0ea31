/** The read side: the aggregate queries over the token table, and what they
    mean on the chain view of a session. */
module SessionQueries {
  import opened Wrappers
  import opened Sorting
  import opened RefreshTokens
  import opened SessionSafety

  datatype SessionSummary = SessionSummary(
    session: SessionId,
    startedAt: int,
    lastSeenAt: int,
    expiresAt: int,
    clientIp: Option<Text>,
    clientDescriptor: Option<Text>,
    isCurrent: bool)

  // ----- SQL aggregates over a finite group

  ghost function MaxOf(s: set<int>): (m: int)
    requires exists x :: x in s
    ensures m in s && forall x :: x in s ==> x <= m
    decreases |s|
  {
    var x :| x in s;
    assert forall y :: y in s ==> y == x || y in s - {x};
    if exists y :: y in s - {x} then
      var rest := MaxOf(s - {x}); if x < rest then rest else x
    else x
  }

  ghost function MinOf(s: set<int>): (m: int)
    requires exists x :: x in s
    ensures m in s && forall x :: x in s ==> m <= x
    decreases |s|
  {
    var x :| x in s;
    assert forall y :: y in s ==> y == x || y in s - {x};
    if exists y :: y in s - {x} then
      var rest := MinOf(s - {x}); if rest < x then rest else x
    else x
  }

  // MAX skips NULLs and is NULL over none.
  ghost function MaxNullable(s: set<Option<int>>): Option<int> {
    var present := set x | x in s && x.Some? :: x.value;
    if exists x :: x in present then Some(MaxOf(present)) else None
  }

  // ----- The queries

  ghost function Group(rows: Rows, w: Workspace, u: User, s: SessionId): set<Id> {
    set id | id in rows && rows[id].user == u && rows[id].workspace == w && rows[id].session == s
  }

  // HAVING bool_or(revoked_at IS NULL AND expires_at > NOW())
  ghost predicate GroupLive(st: State, w: Workspace, u: User, s: SessionId) {
    exists id :: id in Group(st.rows, w, u, s) && LiveRow(st.rows[id], st.now)
  }

  ghost function Summary(rows: Rows, w: Workspace, u: User, s: SessionId, jti: Jti): SessionSummary
    requires Group(rows, w, u, s) != {}
  {
    var g := Group(rows, w, u, s);
    var created := set id | id in g :: rows[id].createdAt;
    var expires := set id | id in g :: rows[id].expiresAt;
    var any :| any in g;
    assert rows[any].createdAt in created && rows[any].expiresAt in expires;
    SessionSummary(
      s, MinOf(created), MaxOf(created), MaxOf(expires),
      MaxNullable(set id | id in g :: rows[id].clientIp),
      MaxNullable(set id | id in g :: rows[id].clientDescriptor),
      exists id :: id in g && rows[id].accessJti == Some(jti))
  }

  /** What `list_live` may return: one summary per live group, newest use first. */
  ghost predicate IsListing(st: State, w: Workspace, u: User, jti: Jti, r: seq<SessionSummary>) {
    && (forall i :: 0 <= i < |r| ==>
          GroupLive(st, w, u, r[i].session) && r[i] == Summary(st.rows, w, u, r[i].session, jti))
    && (forall s :: GroupLive(st, w, u, s) ==> exists i :: 0 <= i < |r| && r[i].session == s)
    && (forall i, j :: 0 <= i < j < |r| ==> r[i].session != r[j].session && r[i].lastSeenAt >= r[j].lastSeenAt)
  }

  // The group's rows whose access token is recorded and was minted after the bound.
  ghost function Minted(st: State, w: Workspace, u: User, s: SessionId, mintedAfter: int): set<Id> {
    set id | id in Group(st.rows, w, u, s) && Recent(st.rows[id], mintedAfter)
  }

  predicate Recent(row: Row, mintedAfter: int) {
    row.accessJti.Some? && row.createdAt > mintedAfter
  }

  function JtisOf(rows: Rows, ids: seq<Id>): (js: seq<Jti>)
    requires forall id :: id in ids ==> id in rows && rows[id].accessJti.Some?
    ensures |js| == |ids| && forall i :: 0 <= i < |ids| ==> js[i] == rows[ids[i]].accessJti.value
  {
    seq(|ids|, i requires 0 <= i < |ids| => assert ids[i] in ids; rows[ids[i]].accessJti.value)
  }

  // `array_agg` lists one id per row, in no particular order.
  ghost predicate Aggregates(st: State, rowIds: set<Id>, order: seq<Id>, jtis: seq<Jti>)
    requires forall id :: id in rowIds ==> id in st.rows && st.rows[id].accessJti.Some?
  {
    && NoRepeats(order) && (forall id :: id in rowIds <==> id in order)
    && jtis == JtisOf(st.rows, order)
  }

  /** What `find_live_session` may return: nothing for a session that is not live,
      otherwise the ids of the access tokens that still need blacklisting. */
  ghost predicate FindsLiveSession(st: State, w: Workspace, u: User, s: SessionId, mintedAfter: int,
                                   r: Option<seq<Jti>>) {
    && (r.Some? <==> GroupLive(st, w, u, s))
    && (r.Some? ==> exists order :: Aggregates(st, Minted(st, w, u, s, mintedAfter), order, r.value))
  }

  // ----- The same answers read off the chain

  /** What the summary of a chain is: the sign-in row's start and device, the
      last row's use, the latest expiry. */
  ghost predicate Describes(rows: Rows, ids: seq<Id>, jti: Jti, sum: SessionSummary)
    requires ids != [] && forall i :: 0 <= i < |ids| ==> ids[i] in rows
  {
    && sum.startedAt == rows[ids[0]].createdAt
    && sum.lastSeenAt == rows[ids[|ids| - 1]].createdAt
    && (forall i :: 0 <= i < |ids| ==> rows[ids[i]].expiresAt <= sum.expiresAt)
    && (exists i :: 0 <= i < |ids| && rows[ids[i]].expiresAt == sum.expiresAt)
    && sum.clientIp == rows[ids[0]].clientIp
    && sum.clientDescriptor == rows[ids[0]].clientDescriptor
    && (sum.isCurrent <==> exists i :: 0 <= i < |ids| && rows[ids[i]].accessJti == Some(jti))
  }

  lemma GroupIsChain(rows: Rows, s: SessionId, ids: seq<Id>)
    requires IsChain(rows, s, ids)
    ensures Group(rows, rows[ids[0]].workspace, rows[ids[0]].user, s) == set i | 0 <= i < |ids| :: ids[i]
  {
    var g := Group(rows, rows[ids[0]].workspace, rows[ids[0]].user, s);
    forall id | id in g ensures exists i :: 0 <= i < |ids| && ids[i] == id {
      assert id in ids;
    }
  }

  /** A group is live exactly when the last row of its chain is. */
  lemma LiveIffLastLive(st: State, s: SessionId, ids: seq<Id>)
    requires IsChain(st.rows, s, ids)
    ensures GroupLive(st, st.rows[ids[0]].workspace, st.rows[ids[0]].user, s)
            <==> st.rows[ids[|ids| - 1]].revokedAt.None? && st.now < st.rows[ids[|ids| - 1]].expiresAt
  {
    GroupIsChain(st.rows, s, ids);
    if GroupLive(st, st.rows[ids[0]].workspace, st.rows[ids[0]].user, s) {
      var id :| id in Group(st.rows, st.rows[ids[0]].workspace, st.rows[ids[0]].user, s)
        && LiveRow(st.rows[id], st.now);
      UnrevokedIsLast(st.rows, s, ids, id);
    } else {
      assert ids[|ids| - 1] in Group(st.rows, st.rows[ids[0]].workspace, st.rows[ids[0]].user, s);
    }
  }

  lemma ExtremesOf(s: set<int>, lo: int, hi: int)
    requires lo in s && hi in s && forall x :: x in s ==> lo <= x <= hi
    ensures (exists x :: x in s) && MinOf(s) == lo && MaxOf(s) == hi
  {
  }

  // MAX over one value and any number of NULLs is that value.
  lemma MaxOfOne(s: set<Option<int>>, v: Option<int>)
    requires v in s && forall x :: x in s ==> x == v || x.None?
    ensures MaxNullable(s) == v
  {
    var present := set x | x in s && x.Some? :: x.value;
    if v.Some? {
      assert v.value in present;
      ExtremesOf(present, v.value, v.value);
    } else {
      assert present == {};
    }
  }

  lemma SummaryTimes(rows: Rows, now: int, s: SessionId, ids: seq<Id>, jti: Jti)
    requires IsChain(rows, s, ids) && Chronology(rows, now, ids)
    requires Group(rows, rows[ids[0]].workspace, rows[ids[0]].user, s) != {}
    ensures var sum := Summary(rows, rows[ids[0]].workspace, rows[ids[0]].user, s, jti);
            sum.startedAt == rows[ids[0]].createdAt && sum.lastSeenAt == rows[ids[|ids| - 1]].createdAt
  {
    GroupIsChain(rows, s, ids);
    var g := Group(rows, rows[ids[0]].workspace, rows[ids[0]].user, s);
    var created := set id | id in g :: rows[id].createdAt;
    assert ids[0] in g && ids[|ids| - 1] in g;
    ExtremesOf(created, rows[ids[0]].createdAt, rows[ids[|ids| - 1]].createdAt);
  }

  lemma SummaryDevice(rows: Rows, now: int, s: SessionId, ids: seq<Id>, jti: Jti)
    requires IsChain(rows, s, ids) && Chronology(rows, now, ids)
    requires Group(rows, rows[ids[0]].workspace, rows[ids[0]].user, s) != {}
    ensures var sum := Summary(rows, rows[ids[0]].workspace, rows[ids[0]].user, s, jti);
            sum.clientIp == rows[ids[0]].clientIp && sum.clientDescriptor == rows[ids[0]].clientDescriptor
  {
    GroupIsChain(rows, s, ids);
    var g := Group(rows, rows[ids[0]].workspace, rows[ids[0]].user, s);
    assert ids[0] in g;
    MaxOfOne(set id | id in g :: rows[id].clientIp, rows[ids[0]].clientIp);
    MaxOfOne(set id | id in g :: rows[id].clientDescriptor, rows[ids[0]].clientDescriptor);
  }

  lemma SummaryDescribes(rows: Rows, now: int, s: SessionId, ids: seq<Id>, jti: Jti)
    requires IsChain(rows, s, ids) && Chronology(rows, now, ids)
    requires Group(rows, rows[ids[0]].workspace, rows[ids[0]].user, s) != {}
    ensures Describes(rows, ids, jti, Summary(rows, rows[ids[0]].workspace, rows[ids[0]].user, s, jti))
  {
    GroupIsChain(rows, s, ids);
    SummaryTimes(rows, now, s, ids, jti);
    SummaryDevice(rows, now, s, ids, jti);
    var g := Group(rows, rows[ids[0]].workspace, rows[ids[0]].user, s);
    var sum := Summary(rows, rows[ids[0]].workspace, rows[ids[0]].user, s, jti);
    var expires := set id | id in g :: rows[id].expiresAt;
    assert sum.expiresAt in expires;
    forall i | 0 <= i < |ids| ensures rows[ids[i]].expiresAt <= sum.expiresAt {
      assert ids[i] in g && rows[ids[i]].expiresAt in expires;
    }
    var id :| id in g && rows[id].expiresAt == sum.expiresAt;
  }

  /** In every reachable state `list_live` has exactly one entry per session of
      the user whose last row is unrevoked and unexpired, and each entry
      describes that session's chain. */
  lemma ListingIsTheChainView(st: State, w: Workspace, u: User, jti: Jti, r: seq<SessionSummary>, s: SessionId,
      ids: seq<Id>)
    requires Reachable(st) && IsListing(st, w, u, jti, r) && IsChain(st.rows, s, ids)
    ensures (exists i :: 0 <= i < |r| && r[i].session == s)
            <==> (&& st.rows[ids[0]].user == u && st.rows[ids[0]].workspace == w
                  && st.rows[ids[|ids| - 1]].revokedAt.None? && st.now < st.rows[ids[|ids| - 1]].expiresAt)
    ensures forall i :: 0 <= i < |r| && r[i].session == s ==> Describes(st.rows, ids, jti, r[i])
    ensures forall i, j :: 0 <= i < |r| && 0 <= j < |r| && r[i].session == s && r[j].session == s ==> i == j
  {
    if i :| 0 <= i < |r| && r[i].session == s {
      var id :| id in Group(st.rows, w, u, s) && LiveRow(st.rows[id], st.now);
      assert id in ids;
      LiveIffLastLive(st, s, ids);
      var chains := ReachableInv(st);
      ChainUnique(st.rows, s, ids, chains[s]);
      SummaryDescribes(st.rows, st.now, s, ids, jti);
    } else if st.rows[ids[0]].user == u && st.rows[ids[0]].workspace == w {
      LiveIffLastLive(st, s, ids);
    }
  }

  /** The chain of a session is determined by the table. */
  lemma ChainUnique(rows: Rows, s: SessionId, a: seq<Id>, b: seq<Id>)
    requires IsChain(rows, s, a) && IsChain(rows, s, b)
    ensures a == b
  {
    RootUnique(rows, s, a, b);
    ChainAgrees(rows, s, a, b, |a| - 1);
    ChainAgrees(rows, s, b, a, |b| - 1);
  }

  lemma NoRowNamesRoot(rows: Rows, s: SessionId, ids: seq<Id>, j: nat)
    requires IsChain(rows, s, ids) && j < |ids|
    ensures rows[ids[j]].replacedBy != Some(ids[0])
  {
    assert j < |ids| - 1 ==> LinkAt(rows, ids, j);
  }

  lemma RootUnique(rows: Rows, s: SessionId, a: seq<Id>, b: seq<Id>)
    requires IsChain(rows, s, a) && IsChain(rows, s, b)
    ensures a[0] == b[0]
  {
    assert a[0] in b;
    var k :| 0 <= k < |b| && b[k] == a[0];
    if k > 0 {
      assert LinkAt(rows, b, k - 1);
      assert b[k - 1] in a;
      var j :| 0 <= j < |a| && a[j] == b[k - 1];
      NoRowNamesRoot(rows, s, a, j);
    }
  }

  lemma {:induction false} ChainAgrees(rows: Rows, s: SessionId, a: seq<Id>, b: seq<Id>, n: nat)
    requires IsChain(rows, s, a) && IsChain(rows, s, b) && a[0] == b[0] && n < |a|
    ensures |b| > n && a[..n + 1] == b[..n + 1]
  {
    if n > 0 {
      ChainAgrees(rows, s, a, b, n - 1);
      assert a[n - 1] == a[..n][n - 1] == b[..n][n - 1] == b[n - 1];
      assert LinkAt(rows, a, n - 1);
      if |b| > n {
        assert LinkAt(rows, b, n - 1);
        assert a[..n + 1] == a[..n] + [a[n]] && b[..n + 1] == b[..n] + [b[n]];
      }
    }
  }

  // ----- The queries have answers

  ghost function LastSeen(st: State, w: Workspace, u: User, s: SessionId): int {
    if Group(st.rows, w, u, s) != {} then Summary(st.rows, w, u, s, 0).lastSeenAt else 0
  }

  lemma LastSeenIs(st: State, w: Workspace, u: User, s: SessionId, jti: Jti)
    requires Group(st.rows, w, u, s) != {}
    ensures Summary(st.rows, w, u, s, jti).lastSeenAt == LastSeen(st, w, u, s)
    ensures Summary(st.rows, w, u, s, jti).session == s
  {
  }

  lemma LiveGroupNotEmpty(st: State, w: Workspace, u: User, s: SessionId)
    requires GroupLive(st, w, u, s)
    ensures Group(st.rows, w, u, s) != {}
  {
  }

  // The live sessions, newest use first.
  lemma LiveSessions(st: State, w: Workspace, u: User) returns (ss: seq<SessionId>)
    ensures NoRepeats(ss) && forall s :: s in ss <==> GroupLive(st, w, u, s)
    ensures forall i, j :: 0 <= i < j < |ss| ==> LastSeen(st, w, u, ss[i]) >= LastSeen(st, w, u, ss[j])
  {
    hide LastSeen;
    var live := set id | id in st.rows && GroupLive(st, w, u, st.rows[id].session) :: st.rows[id].session;
    forall s | GroupLive(st, w, u, s) ensures s in live {
      var id :| id in Group(st.rows, w, u, s) && LiveRow(st.rows[id], st.now);
    }
    var xs := Enumerate(live);
    var newer := (a: SessionId, b: SessionId) => LastSeen(st, w, u, a) >= LastSeen(st, w, u, b);
    ss := SortBy(xs, newer);
    SortOrders(xs, newer);
    SortMembers(xs, newer);
    SortNoRepeats(xs, newer);
    forall i, j | 0 <= i < j < |ss| ensures LastSeen(st, w, u, ss[i]) >= LastSeen(st, w, u, ss[j]) {
      assert newer(ss[i], ss[j]);
    }
  }

  /** `list_live` always has an answer. */
  lemma ListingExists(st: State, w: Workspace, u: User, jti: Jti) returns (r: seq<SessionSummary>)
    ensures IsListing(st, w, u, jti, r)
  {
    var ss := LiveSessions(st, w, u);
    forall i | 0 <= i < |ss|
      ensures Group(st.rows, w, u, ss[i]) != {}
      ensures Summary(st.rows, w, u, ss[i], jti).lastSeenAt == LastSeen(st, w, u, ss[i])
      ensures Summary(st.rows, w, u, ss[i], jti).session == ss[i]
    {
      assert ss[i] in ss;
      LiveGroupNotEmpty(st, w, u, ss[i]);
      LastSeenIs(st, w, u, ss[i], jti);
    }
    hide Summary, LastSeen, GroupLive, Group;
    r := seq(|ss|, i requires 0 <= i < |ss| => Summary(st.rows, w, u, ss[i], jti));
    forall s | GroupLive(st, w, u, s) ensures exists i :: 0 <= i < |r| && r[i].session == s {
      var i :| 0 <= i < |ss| && ss[i] == s;
      assert r[i].session == s;
    }
    forall i | 0 <= i < |r|
      ensures GroupLive(st, w, u, r[i].session) && r[i] == Summary(st.rows, w, u, r[i].session, jti)
    {
      assert ss[i] in ss;
    }
  }

  /** `find_live_session` always has an answer. */
  lemma FindingExists(st: State, w: Workspace, u: User, s: SessionId, mintedAfter: int) returns (r: Option<seq<Jti>>)
    ensures FindsLiveSession(st, w, u, s, mintedAfter, r)
  {
    if GroupLive(st, w, u, s) {
      var order := Enumerate(Minted(st, w, u, s, mintedAfter));
      r := Some(JtisOf(st.rows, order));
      assert Aggregates(st, Minted(st, w, u, s, mintedAfter), order, r.value);
    } else {
      r := None;
    }
  }

  // ----- The list of access tokens, read off the chain

  /** The given rows whose access token is recorded and was minted after the bound. */
  function RecentOf(rows: Rows, ids: seq<Id>, mintedAfter: int): (out: seq<Id>)
    requires forall id :: id in ids ==> id in rows
    ensures forall id :: id in out <==> id in ids && rows[id].accessJti.Some? && mintedAfter < rows[id].createdAt
  {
    if ids == [] then []
    else
      var n := |ids| - 1;
      assert ids == ids[..n] + [ids[n]];
      RecentOf(rows, ids[..n], mintedAfter) + (if Recent(rows[ids[n]], mintedAfter) then [ids[n]] else [])
  }

  lemma {:induction false} RecentNoRepeats(rows: Rows, ids: seq<Id>, mintedAfter: int)
    requires NoRepeats(ids) && forall id :: id in ids ==> id in rows
    ensures NoRepeats(RecentOf(rows, ids, mintedAfter))
  {
    if ids != [] {
      var n := |ids| - 1;
      RecentNoRepeats(rows, ids[..n], mintedAfter);
      assert ids[n] !in ids[..n];
    }
  }

  lemma JtisSplit(rows: Rows, a: seq<Id>, x: Id, b: seq<Id>)
    requires forall id :: id in a + [x] + b ==> id in rows && rows[id].accessJti.Some?
    requires forall id :: id in a + b ==> id in rows && rows[id].accessJti.Some?
    requires x in rows && rows[x].accessJti.Some?
    ensures multiset(JtisOf(rows, a + [x] + b)) == multiset(JtisOf(rows, a + b)) + multiset{rows[x].accessJti.value}
  {
    assert forall id :: id in a || id in b ==> id in a + b;
    var ja, jb, jx := JtisOf(rows, a), JtisOf(rows, b), rows[x].accessJti.value;
    assert JtisOf(rows, a + b) == ja + jb;
    assert JtisOf(rows, a + [x] + b) == ja + [jx] + jb;
  }

  lemma SomeMember(b: seq<Id>) returns (y: Id)
    requires b != []
    ensures y in b
  {
    y := b[0];
  }

  /** Listing the same rows in another order lists the same ids, as often. */
  lemma {:induction false} OrderKeepsJtis(rows: Rows, a: seq<Id>, b: seq<Id>)
    requires NoRepeats(a) && NoRepeats(b) && forall id :: id in a <==> id in b
    requires forall id :: id in a ==> id in rows && rows[id].accessJti.Some?
    ensures multiset(JtisOf(rows, a)) == multiset(JtisOf(rows, b))
    decreases |a|
  {
    if a == [] {
      if b != [] {
        var y := SomeMember(b);
      }
    } else {
      var n := |a| - 1;
      var x := a[n];
      assert x in b;
      var k :| 0 <= k < |b| && b[k] == x;
      var front, rest := a[..n], b[..k] + b[k + 1..];
      assert a == front + [x] + [] && b == b[..k] + [x] + b[k + 1..] && front + [] == front;
      RemoveOne(a, front, x);
      RemoveMiddle(b, k, x);
      OrderKeepsJtis(rows, front, rest);
      JtisSplit(rows, front, x, []);
      JtisSplit(rows, b[..k], x, b[k + 1..]);
    }
  }

  lemma RemoveOne(a: seq<Id>, front: seq<Id>, x: Id)
    requires NoRepeats(a) && a == front + [x]
    ensures NoRepeats(front) && forall id :: id in front <==> id in a && id != x
  {
    assert forall i :: 0 <= i < |front| ==> front[i] == a[i];
    assert a[|front|] == x;
  }

  lemma RemoveMiddle(b: seq<Id>, k: nat, x: Id)
    requires NoRepeats(b) && k < |b| && b[k] == x
    ensures NoRepeats(b[..k] + b[k + 1..]) && forall id :: id in b[..k] + b[k + 1..] <==> id in b && id != x
  {
    var r := b[..k] + b[k + 1..];
    assert forall i :: 0 <= i < |r| ==> r[i] == if i < k then b[i] else b[i + 1];
    assert b == b[..k] + [x] + b[k + 1..];
  }

  /** `find_live_session` answers for exactly the user's session whose last row is
      live; its list holds, in some order, one id per chain token that is recorded
      and was minted after the bound. */
  lemma FindLiveSessionIsTheChainView(st: State, w: Workspace, u: User, s: SessionId, mintedAfter: int,
      ids: seq<Id>, r: Option<seq<Jti>>)
    requires IsChain(st.rows, s, ids) && FindsLiveSession(st, w, u, s, mintedAfter, r)
    ensures NoRepeats(RecentOf(st.rows, ids, mintedAfter))
    ensures r.Some? <==> (&& st.rows[ids[0]].user == u && st.rows[ids[0]].workspace == w
                          && st.rows[ids[|ids| - 1]].revokedAt.None? && st.now < st.rows[ids[|ids| - 1]].expiresAt)
    ensures r.Some? ==> multiset(r.value) == multiset(JtisOf(st.rows, RecentOf(st.rows, ids, mintedAfter)))
  {
    if r.Some? {
      var id :| id in Group(st.rows, w, u, s) && LiveRow(st.rows[id], st.now);
      assert id in ids;
    }
    LiveIffLastLive(st, s, ids);
    GroupIsChain(st.rows, s, ids);
    ChainNoRepeats(st.rows, s, ids);
    RecentNoRepeats(st.rows, ids, mintedAfter);
    if r.Some? {
      var recent := RecentOf(st.rows, ids, mintedAfter);
      var order :| Aggregates(st, Minted(st, w, u, s, mintedAfter), order, r.value);
      MintedIsRecent(st, w, u, s, mintedAfter, ids);
      OrderKeepsJtis(st.rows, order, recent);
    }
  }

  lemma ChainNoRepeats(rows: Rows, s: SessionId, ids: seq<Id>)
    requires IsChain(rows, s, ids)
    ensures NoRepeats(ids)
  {
  }

  lemma MintedIsRecent(st: State, w: Workspace, u: User, s: SessionId, mintedAfter: int, ids: seq<Id>)
    requires IsChain(st.rows, s, ids) && st.rows[ids[0]].user == u && st.rows[ids[0]].workspace == w
    ensures forall id :: id in Minted(st, w, u, s, mintedAfter) <==> id in RecentOf(st.rows, ids, mintedAfter)
  {
    GroupIsChain(st.rows, s, ids);
    forall id ensures id in Group(st.rows, w, u, s) <==> id in ids {
      if id in ids {
        var i :| 0 <= i < |ids| && ids[i] == id;
      }
    }
  }
}
