/** What each transaction does to the table, read off the rows and the records
    themselves. */
module SessionEffects {
  import opened Wrappers
  import opened RefreshTokens
  import opened SessionSafety

  // `rows'` agrees with `rows` on every id but the given ones.
  ghost predicate SameExcept(rows: Rows, rows': Rows, changed: set<Id>) {
    forall id :: id in rows && id !in changed ==> id in rows' && rows'[id] == rows[id]
  }

  // ----- Sign-in

  /** A sign-in opens one row with exactly the fields it was given; an id or a token
      hash that is already in the table makes it fail and change nothing. */
  lemma SignInStores(st: State, id: Id, opening: NewSession)
    requires Enabled(st, SignIn(id, opening))
    ensures var after := Apply(st, SignIn(id, opening));
            && (id in st.rows || (exists k :: k in st.rows && st.rows[k].hash == opening.hash) ==>
                  after.rows == st.rows && after.log == st.log + [DatabaseError])
            && (id !in st.rows && (forall k :: k in st.rows ==> st.rows[k].hash != opening.hash) ==>
                  && after.rows.Keys == st.rows.Keys + {id} && SameExcept(st.rows, after.rows, {id})
                  && after.log == st.log + [Opened(id)]
                  && var row := after.rows[id];
                     && row.user == opening.user && row.workspace == opening.workspace
                     && row.hash == opening.hash && row.expiresAt == opening.expiresAt
                     && row.session == opening.session && row.accessJti == Some(opening.accessJti)
                     && row.clientIp == opening.clientIp && row.clientDescriptor == opening.clientDescriptor
                     && row.createdAt == st.now && row.revokedAt.None? && row.replacedBy.None?)
            && after.now == st.now && after.users == st.users && after.pending == st.pending && after.audit == st.audit
  {
  }

  // ----- Rotation

  // In a reachable state a hash names one row.
  lemma HashNamesRow(st: State, id: Id)
    requires Reachable(st) && id in st.rows
    ensures HashTaken(st.rows, st.rows[id].hash) && RowByHash(st.rows, st.rows[id].hash) == id
  {
    hide Reachable;
    var chains := ReachableInv(st);
    assert st.rows[id].hash == st.rows[id].hash;
  }

  /** A probe that goes on remembers the row its token hashes to, as it was. */
  lemma ProbeRemembers(st: State, handle: Handle, id: Id, appNow: int)
    requires Reachable(st) && handle !in st.pending && id in st.rows
    requires st.rows[id].revokedAt.None? && appNow < st.rows[id].expiresAt
    ensures var after, row := Apply(st, Probe(handle, st.rows[id].hash, appNow)), st.rows[id];
            && after == st.(pending := after.pending)
            && after.pending.Keys == st.pending.Keys + {handle}
            && (forall h :: h in st.pending ==> after.pending[h] == st.pending[h])
            && var p := after.pending[handle];
               && p.oldId == id && p.user == row.user && p.workspace == row.workspace
               && p.session == row.session && p.probedAt == st.now
  {
    hide Reachable;
    HashNamesRow(st, id);
  }

  lemma SnapshotIsOfRow(st: State, h: Handle)
    requires Reachable(st) && h in st.pending
    ensures PendingOk(st.rows, st.now, st.pending[h])
  {
    hide Reachable;
    var chains := ReachableInv(st);
  }

  /** What a rotation hands out: the commit's hash, expiry and token id, in the old
      row's session, unrevoked, without a device. */
  predicate IsSuccessor(row: Row, e: Event, was: Row, now: int)
    requires e.Commit?
  {
    && row.hash == e.newHash && row.expiresAt == e.newExpiresAt && row.accessJti == Some(e.newJti)
    && row.createdAt == now && row.revokedAt.None? && row.replacedBy.None?
    && row.user == was.user && row.workspace == was.workspace && row.session == was.session
    && row.clientIp.None? && row.clientDescriptor.None?
  }

  /** A rotation that wins closes the old row in favour of the new one, and the new
      one carries what the commit asked for. Nothing else in the table changes. */
  lemma RotationHandsOut(st: State, e: Event)
    requires Reachable(st) && e.Commit? && e.handle in st.pending && CommitOutcome(st, e).Rotated?
    ensures var was, after := st.pending[e.handle].oldId, Apply(st, e);
            && was in st.rows && e.newId !in st.rows
            && CommitOutcome(st, e) == Rotated(was, e.newId, st.rows[was].user, st.rows[was].workspace)
            && after.rows.Keys == st.rows.Keys + {e.newId}
            && SameExcept(st.rows, after.rows, {was})
            && after.rows[was] == st.rows[was].(revokedAt := Some(st.now), replacedBy := Some(e.newId))
            && IsSuccessor(after.rows[e.newId], e, st.rows[was], st.now)
            && after.pending == st.pending - {e.handle}
  {
    hide Reachable;
    SnapshotIsOfRow(st, e.handle);
  }

  lemma NewHashIsNew(st: State, e: Event, id: Id)
    requires e.Commit? && e.handle in st.pending && CommitOutcome(st, e).Rotated? && id in st.rows
    ensures st.rows[id].hash != e.newHash
  {
  }

  /** The token that was handed out can itself be rotated until the expiry asked for. */
  lemma SuccessorIsUsable(st: State, e: Event, appNow: int)
    requires Reachable(st) && e.Commit? && e.handle in st.pending && CommitOutcome(st, e).Rotated?
    ensures ProbeOutcome(Apply(st, e), e.newHash, appNow).None? <==> appNow < e.newExpiresAt
  {
    hide Reachable, CommitOutcome;
    RotationHandsOut(st, e);
    var rows := Apply(st, e).rows;
    assert rows[e.newId].hash == e.newHash;
    assert HashTaken(rows, e.newHash);
    var found := RowByHash(rows, e.newHash);
    if found in st.rows {
      NewHashIsNew(st, e, found);
    }
  }

  // ----- Revocation

  // The rows that meet `mine` are revoked, at `now` where they were not; the others
  // are as they were.
  ghost predicate ClosesExactly(rows: Rows, rows': Rows, now: int, mine: set<Id>) {
    && rows'.Keys == rows.Keys
    && (forall id :: id in rows && id in mine && rows[id].revokedAt.None? ==>
          rows'[id] == rows[id].(revokedAt := Some(now)))
    && (forall id :: id in rows && (id !in mine || rows[id].revokedAt.Some?) ==> rows'[id] == rows[id])
  }

  /** Log out everywhere closes the rows of that user, in every workspace, and does
      nothing for a user that is not known. */
  lemma RevokeAllClosesUser(st: State, user: User)
    ensures var after := Apply(st, RevokeAll(user));
            && after == st.(rows := after.rows)
            && (user !in st.users ==> after.rows == st.rows)
            && (user in st.users ==>
                  ClosesExactly(st.rows, after.rows, st.now, set id | id in st.rows && st.rows[id].user == user))
  {
  }

  // One record more, counting the rows of `mine` that were open.
  ghost predicate Records(st: State, after: State, record: RevocationRecord, mine: set<Id>) {
    && |after.audit| == |st.audit| + 1 && after.audit[..|st.audit|] == st.audit
    && var row := after.audit[|st.audit|];
       && row.record == record && row.createdAt == st.now
       && row.closed == |set id | id in mine && id in st.rows && st.rows[id].revokedAt.None?|
  }

  /** The user-wide lever closes the target's rows in the record's workspace, and
      records how many of them were open. */
  lemma RevokeClosesTarget(st: State, record: RevocationRecord)
    ensures var after := Apply(st, Revoke(record));
            var mine := set id | id in st.rows && st.rows[id].user == record.target
                                 && st.rows[id].workspace == record.workspace;
            && after == st.(rows := after.rows, audit := after.audit)
            && ClosesExactly(st.rows, after.rows, st.now, mine)
            && Records(st, after, record, mine)
  {
    var mine := set id | id in st.rows && st.rows[id].user == record.target
                         && st.rows[id].workspace == record.workspace;
    RevokeOf(st, record, OfTarget(record), mine);
  }

  /** The one-session lever closes the target's rows of that session, and records how
      many of them were open. */
  lemma RevokeOneClosesTarget(st: State, record: RevocationRecord, s: SessionId)
    ensures var after := Apply(st, RevokeOne(record, s));
            var mine := set id | id in st.rows && st.rows[id].user == record.target
                                 && st.rows[id].workspace == record.workspace && st.rows[id].session == s;
            && after == st.(rows := after.rows, audit := after.audit)
            && ClosesExactly(st.rows, after.rows, st.now, mine)
            && Records(st, after, record, mine)
  {
    var mine := set id | id in st.rows && st.rows[id].user == record.target
                         && st.rows[id].workspace == record.workspace && st.rows[id].session == s;
    RevokeOf(st, record, OfTargetSession(record, s), mine);
  }

  lemma RevokeOf(st: State, record: RevocationRecord, sel: Row -> bool, mine: set<Id>)
    requires forall id :: id in mine <==> id in st.rows && sel(st.rows[id])
    ensures var after := AfterRevoke(st, record, sel);
            && after == st.(rows := after.rows, audit := after.audit)
            && ClosesExactly(st.rows, after.rows, st.now, mine)
            && Records(st, after, record, mine)
  {
    var open := set id | id in mine && id in st.rows && st.rows[id].revokedAt.None?;
    assert Affected(st.rows, sel) == open;
  }

  // ----- The watermark

  /** A record for all sessions of the user in the workspace. */
  predicate UserWide(row: AuditRow, workspace: Workspace, user: User) {
    row.record.target == user && row.record.workspace == workspace && row.record.session.None?
  }

  /** The watermark is the largest bound over the user-wide records of that user and
      workspace, and there is none without such a record. */
  lemma {:induction false} WatermarkIsMaximum(audit: seq<AuditRow>, workspace: Workspace, user: User)
    ensures var w := LatestWatermark(audit, workspace, user);
            && (w.None? <==> forall i :: 0 <= i < |audit| ==> !UserWide(audit[i], workspace, user))
            && (w.Some? ==>
                  && (exists i :: 0 <= i < |audit| && UserWide(audit[i], workspace, user)
                                  && audit[i].record.revokedBefore == w.value)
                  && (forall i :: 0 <= i < |audit| && UserWide(audit[i], workspace, user) ==>
                        audit[i].record.revokedBefore <= w.value))
  {
    if audit != [] {
      var n := |audit| - 1;
      WatermarkIsMaximum(audit[..n], workspace, user);
      var before := LatestWatermark(audit[..n], workspace, user);
      if before.Some? {
        var i :| 0 <= i < n && UserWide(audit[..n][i], workspace, user)
          && audit[..n][i].record.revokedBefore == before.value;
        assert audit[i] == audit[..n][i];
      }
      forall i | 0 <= i < n ensures audit[i] == audit[..n][i] {
      }
      assert UserWide(audit[n], workspace, user) ==> LatestWatermark(audit, workspace, user).Some?;
    }
  }
}
