/** The guarantees of the session protocol, over every reachable state and every
    interleaved run. */
module SessionTheorems {
  import opened Wrappers
  import opened RefreshTokens
  import opened SessionSafety

  // ----- One chain per session, one usable token per chain

  /** A session's rows form one linear `replaced_by` chain, rooted at the row its
      sign-in opened. */
  lemma SessionIsOneChain(st: State, s: SessionId)
    requires Reachable(st) && SessionKnown(st.rows, s)
    ensures exists ids :: IsChain(st.rows, s, ids) && Opened(ids[0]) in st.log
  {
    var chains := ReachableInv(st);
    var id :| id in st.rows && st.rows[id].session == s;
    assert s in chains;
  }

  /** A session never has two usable tokens. */
  lemma NeverTwoUsable(st: State, a: Id, b: Id)
    requires Reachable(st)
    requires a in st.rows && b in st.rows && st.rows[a].session == st.rows[b].session
    requires st.rows[a].revokedAt.None? && st.rows[b].revokedAt.None?
    ensures a == b
  {
    var chains := ReachableInv(st);
    var s := st.rows[a].session;
    UnrevokedIsLast(st.rows, s, chains[s], a);
    UnrevokedIsLast(st.rows, s, chains[s], b);
  }

  // ----- A closed session stays closed

  ghost predicate Closed(rows: Rows, s: SessionId) {
    && SessionKnown(rows, s)
    && (forall id :: id in rows && rows[id].session == s ==> rows[id].revokedAt.Some?)
  }

  lemma StepKeepsClosed(st: State, e: Event, s: SessionId)
    requires AllPendingOk(st.rows, st.now, st.pending) && Enabled(st, e) && Closed(st.rows, s)
    ensures Closed(Apply(st, e).rows, s)
  {
    match e
    case SignIn(_, _) => SignInKeepsClosed(st, e, s);
    case Commit(_, _, _, _, _) => CommitKeepsClosed(st, e, s);
    case RevokeAll(user) => RevokeKeepsClosed(st.rows, st.now, OfUser(user), s);
    case Revoke(record) => RevokeKeepsClosed(st.rows, st.now, OfTarget(record), s);
    case RevokeOne(record, t) => RevokeKeepsClosed(st.rows, st.now, OfTargetSession(record, t), s);
    case _ =>
  }

  lemma SignInKeepsClosed(st: State, e: Event, s: SessionId)
    requires e.SignIn? && Enabled(st, e) && Closed(st.rows, s)
    ensures Closed(Apply(st, e).rows, s)
  {
    var id :| id in st.rows && st.rows[id].session == s;
    assert e.opening.session != s;
    assert id in Apply(st, e).rows && Apply(st, e).rows[id].session == s;
  }

  lemma RevokeKeepsClosed(rows: Rows, now: int, sel: Row -> bool, s: SessionId)
    requires Closed(rows, s)
    ensures Closed(RevokeWhere(rows, now, sel), s)
  {
    var id :| id in rows && rows[id].session == s;
    assert RevokeWhere(rows, now, sel)[id].session == s;
  }

  lemma CommitKeepsClosed(st: State, e: Event, s: SessionId)
    requires e.Commit? && e.handle in st.pending && Closed(st.rows, s)
    requires PendingOk(st.rows, st.now, st.pending[e.handle])
    ensures Closed(AfterCommit(st, e).rows, s)
  {
    if CommitOutcome(st, e).Rotated? {
      assert st.pending[e.handle].session != s;
      var id :| id in st.rows && st.rows[id].session == s;
      assert id in AfterCommit(st, e).rows && AfterCommit(st, e).rows[id].session == s;
    }
  }

  /** Once a session has no unrevoked row it never has one again, even if a
      rotation of its last row was already in flight. */
  lemma {:induction false} ClosedStaysClosed(st: State, run: seq<Event>, s: SessionId)
    requires Reachable(st) && Legal(st, run) && Closed(st.rows, s)
    ensures Closed(Run(st, run).rows, s)
  {
    var chains := ReachableInv(st);
    ClosedAlongRun(st, chains, run, s);
  }

  lemma {:induction false} ClosedAlongRun(st: State, chains: Chains, run: seq<Event>, s: SessionId)
    requires Inv(st, chains) && Legal(st, run) && Closed(st.rows, s)
    ensures Closed(Run(st, run).rows, s)
    decreases |run|
  {
    if run != [] {
      StepKeepsClosed(st, run[0], s);
      var chains' := StepKeepsInv(st, chains, run[0]);
      ClosedAlongRun(Apply(st, run[0]), chains', run[1..], s);
    }
  }

  // ----- The narrow lever

  /** `revoke_one_session` touches no other session, closes at most one row and
      leaves the session closed. */
  lemma RevokeOneClosesOneSession(st: State, record: RevocationRecord, s: SessionId)
    requires Reachable(st)
    ensures var st' := Apply(st, RevokeOne(record, s));
            var sel := OfTargetSession(record, s);
            && st'.rows.Keys == st.rows.Keys
            && (forall id :: id in st.rows && st.rows[id].session != s ==> st'.rows[id] == st.rows[id])
            && |st'.audit| == |st.audit| + 1
            && st'.audit[|st.audit|].closed <= 1
            && (st'.audit[|st.audit|].closed == 1 <==> Affected(st.rows, sel) != {})
            && ((exists id :: id in st.rows && sel(st.rows[id])) ==> Closed(st'.rows, s))
  {
    var sel := OfTargetSession(record, s);
    AffectedAtMostOne(st, record, s);
    AtMostOne(Affected(st.rows, sel));
    if id :| id in st.rows && sel(st.rows[id]) {
      OwnerRevokesAll(st, record, s, id);
    }
  }

  lemma AffectedAtMostOne(st: State, record: RevocationRecord, s: SessionId)
    requires Reachable(st)
    ensures var hit := Affected(st.rows, OfTargetSession(record, s));
            forall a, b :: a in hit && b in hit ==> a == b
  {
    var hit := Affected(st.rows, OfTargetSession(record, s));
    forall a, b | a in hit && b in hit ensures a == b
    {
      NeverTwoUsable(st, a, b);
    }
  }

  lemma OwnerRevokesAll(st: State, record: RevocationRecord, s: SessionId, id: Id)
    requires Reachable(st) && id in st.rows && OfTargetSession(record, s)(st.rows[id])
    ensures Closed(RevokeWhere(st.rows, st.now, OfTargetSession(record, s)), s)
  {
    var rows' := RevokeWhere(st.rows, st.now, OfTargetSession(record, s));
    forall k | k in rows' && rows'[k].session == s ensures rows'[k].revokedAt.Some? {
      SameOwner(st, id, k);
    }
    assert id in rows' && rows'[id].session == s;
  }

  /** All rows of a session belong to one user in one workspace. */
  lemma SameOwner(st: State, a: Id, b: Id)
    requires Reachable(st) && a in st.rows && b in st.rows && st.rows[a].session == st.rows[b].session
    ensures st.rows[a].user == st.rows[b].user && st.rows[a].workspace == st.rows[b].workspace
  {
    var chains := ReachableInv(st);
    assert IsChain(st.rows, st.rows[a].session, chains[st.rows[a].session]);
  }

  /** A record that names a session moves no user's watermark. */
  lemma NarrowRecordMovesNoWatermark(st: State, record: RevocationRecord, s: SessionId, w: Workspace, u: User)
    requires record.session.Some?
    ensures LatestWatermark(Apply(st, RevokeOne(record, s)).audit, w, u) == LatestWatermark(st.audit, w, u)
  {
    var audit' := Apply(st, RevokeOne(record, s)).audit;
    assert audit'[..|audit'| - 1] == st.audit;
  }

  lemma AtMostOne<T>(s: set<T>)
    requires forall a, b :: a in s && b in s ==> a == b
    ensures |s| <= 1
    ensures |s| == 1 <==> s != {}
  {
    if s != {} {
      var a :| a in s;
      assert s == {a};
    }
  }

  // ----- The watermark only moves forward

  ghost predicate NotBefore(a: Option<int>, b: Option<int>) {
    a.Some? ==> b.Some? && a.value <= b.value
  }

  lemma {:induction false} WatermarkGrows(audit: seq<AuditRow>, more: seq<AuditRow>, w: Workspace, u: User)
    ensures NotBefore(LatestWatermark(audit, w, u), LatestWatermark(audit + more, w, u))
    decreases |more|
  {
    if more == [] {
      assert audit + more == audit;
    } else {
      var k := |more| - 1;
      WatermarkGrows(audit, more[..k], w, u);
      assert (audit + more)[..|audit + more| - 1] == audit + more[..k];
    }
  }

  lemma StepOnlyAppendsAudit(st: State, e: Event)
    requires Enabled(st, e)
    ensures st.audit <= Apply(st, e).audit
  {
  }

  /** `latest_watermark` is nondecreasing over every run. */
  lemma {:induction false} WatermarkMonotone(st: State, run: seq<Event>, w: Workspace, u: User)
    requires Legal(st, run)
    ensures NotBefore(LatestWatermark(st.audit, w, u), LatestWatermark(Run(st, run).audit, w, u))
    decreases |run|
  {
    if run != [] {
      var st' := Apply(st, run[0]);
      StepOnlyAppendsAudit(st, run[0]);
      WatermarkGrows(st.audit, st'.audit[|st.audit|..], w, u);
      assert st.audit + st'.audit[|st.audit|..] == st'.audit;
      WatermarkMonotone(st', run[1..], w, u);
    }
  }

  // ----- What the answers of `rotate` mean

  /** Each row yields at most one `Rotated`, and its row names the successor. */
  lemma RotatedAtMostOnce(st: State, i: nat, j: nat)
    requires Reachable(st)
    requires i < |st.log| && j < |st.log| && st.log[i].Rotated? && st.log[j].Rotated?
    requires st.log[i].oldId == st.log[j].oldId
    ensures i == j
    ensures st.log[i].oldId in st.rows && st.rows[st.log[i].oldId].replacedBy == Some(st.log[i].newId)
  {
    var chains := ReachableInv(st);
  }

  /** On the probe path `ReplayDetected` is exactly "a successor was committed",
      `Revoked` is exactly "closed without one", and the hash names one row. */
  lemma ProbeAnswersMeanWhatTheySay(st: State, id: Id, appNow: int)
    requires Reachable(st) && id in st.rows
    ensures var row := st.rows[id];
            var answer := ProbeOutcome(st, row.hash, appNow);
            && RowByHash(st.rows, row.hash) == id
            && (answer == Some(ReplayDetected(row.user)) <==> WasRotated(st.log, id))
            && (answer == Some(Revoked) <==> row.revokedAt.Some? && !WasRotated(st.log, id))
            && (answer == Some(Expired) <==> row.revokedAt.None? && row.expiresAt <= appNow)
            && answer != Some(NotFound)
  {
    var chains := ReachableInv(st);
    var row := st.rows[id];
    assert HashTaken(st.rows, row.hash);
    assert RowByHash(st.rows, row.hash) == id;
    if row.revokedAt.None? {
      UnrevokedNotReplaced(st.rows, st.now, chains, id);
    }
    if WasRotated(st.log, id) {
      var i :| 0 <= i < |st.log| && st.log[i].Rotated? && st.log[i].oldId == id;
    }
  }

  lemma {:induction false} PendingStays(st: State, run: seq<Event>, h: Handle)
    requires Legal(st, run) && h in st.pending
    requires forall e :: e in run && e.Commit? ==> e.handle != h
    ensures h in Run(st, run).pending && Run(st, run).pending[h] == st.pending[h]
    decreases |run|
  {
    if run != [] {
      assert run[0] in run;
      StepKeepsPending(st, run[0], h);
      PendingStays(Apply(st, run[0]), run[1..], h);
    }
  }

  lemma StepKeepsPending(st: State, e: Event, h: Handle)
    requires Enabled(st, e) && h in st.pending && (e.Commit? ==> e.handle != h)
    ensures h in Apply(st, e).pending && Apply(st, e).pending[h] == st.pending[h]
  {
  }

  lemma {:induction false} LegalJoin(st: State, a: seq<Event>, b: seq<Event>)
    requires Legal(st, a) && Legal(Run(st, a), b)
    ensures Legal(st, a + b) && Run(st, a + b) == Run(Run(st, a), b)
    decreases |a|
  {
    if a == [] {
      assert a + b == b;
    } else {
      assert (a + b)[1..] == a[1..] + b;
      LegalJoin(Apply(st, a[0]), a[1..], b);
    }
  }

  lemma OneStepRun(st: State, e: Event)
    requires Enabled(st, e)
    ensures Legal(st, [e]) && Run(st, [e]) == Apply(st, e)
  {
    assert [e][1..] == [];
    assert Run(Apply(st, e), []) == Apply(st, e);
  }

  lemma ReachableExtends(st: State, run: seq<Event>)
    requires Reachable(st) && Legal(st, run)
    ensures Reachable(Run(st, run))
  {
    var start, past :| Initial(start) && Legal(start, past) && Run(start, past) == st;
    LegalJoin(start, past, run);
  }

  /** A rotation that probes, is overtaken by any run of other steps, and then
      tries to commit. It wins exactly when nothing revoked its row meanwhile;
      when it loses the table is untouched, and its row was live at the probe and
      revoked no earlier than it. */
  lemma RaceIsDecidedByRevocation(st: State, probe: Event, run: seq<Event>, commit: Event)
    requires Reachable(st) && probe.Probe? && Enabled(st, probe)
    requires ProbeOutcome(st, probe.hash, probe.appNow).None?
    requires Legal(Apply(st, probe), run)
    requires forall e :: e in run && e.Commit? ==> e.handle != probe.handle
    requires commit.Commit? && commit.handle == probe.handle && Enabled(Run(Apply(st, probe), run), commit)
    ensures var id := RowByHash(st.rows, probe.hash);
            var before := Run(Apply(st, probe), run);
            var after := Apply(before, commit);
            var answer := CommitOutcome(before, commit);
            && after.log == before.log + [answer]
            && st.rows[id].revokedAt.None?
            && id in before.rows
            && (InsertAllowed(before.rows, commit.newId, commit.newHash) ==>
                  && (answer == Rotated(id, commit.newId, st.rows[id].user, st.rows[id].workspace)
                      <==> before.rows[id].revokedAt.None?)
                  && (answer == ReplayDetected(st.rows[id].user) <==> before.rows[id].revokedAt.Some?))
            && (!answer.Rotated? ==> after.rows == before.rows)
            && (answer.ReplayDetected? ==>
                  before.rows[id].revokedAt.Some? && st.now <= before.rows[id].revokedAt.value)
  {
    var mid := Apply(st, probe);
    var before := Run(mid, run);
    PendingStays(mid, run, probe.handle);
    OneStepRun(st, probe);
    ReachableExtends(st, [probe]);
    ReachableExtends(mid, run);
    var chains := ReachableInv(before);
    assert PendingOk(before.rows, before.now, before.pending[probe.handle]);
  }
}
