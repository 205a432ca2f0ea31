/** The repositories as an object: each method is one transaction over the tables
    and is proved to take exactly one step of the protocol. */
module SessionStore {
  import opened Wrappers
  import opened RefreshTokens
  import opened SessionSafety

  class Store {
    var now: int
    var users: map<User, Workspace>
    var rows: Rows
    var pending: map<Handle, Pending>
    var audit: seq<AuditRow>
    var log: seq<Outcome>

    ghost function Contents(): State
      reads this
    {
      State(now, users, rows, pending, audit, log)
    }

    // What the schema and the protocol's invariant give every transaction.
    ghost predicate Valid()
      reads this
    {
      HashesDistinct(rows) && AllPendingOk(rows, now, pending)
    }

    constructor (users: map<User, Workspace>, now: int)
      ensures Initial(Contents()) && Valid()
    {
      this.now, this.users := now, users;
      rows, pending, audit, log := map[], map[], [], [];
    }

    /** Open a session. */
    method Insert(id: Id, opening: NewSession) returns (answer: Outcome)
      requires Valid() && !SessionKnown(rows, opening.session)
      modifies `rows, `log
      ensures Valid() && Contents() == Apply(old(Contents()), SignIn(id, opening))
      ensures answer == Opened(id) || (answer == DatabaseError && rows == old(rows))
    {
      if id in rows || HashTaken(rows, opening.hash) {
        answer := DatabaseError;
      } else {
        rows := rows[id := SignInRow(opening, now)];
        answer := Opened(id);
        InsertKeepsHashes(old(rows), rows, id);
      }
      log := log + [answer];
    }

    /** First half of `rotate`: a read-only snapshot that may settle the answer. */
    method RotateProbe(handle: Handle, hash: Hash, appNow: int) returns (answer: Option<Outcome>)
      requires Valid() && handle !in pending
      modifies `pending, `log
      ensures Valid() && Contents() == Apply(old(Contents()), Probe(handle, hash, appNow))
      ensures answer == ProbeOutcome(old(Contents()), hash, appNow)
    {
      if !HashTaken(rows, hash) {
        answer := Some(NotFound);
        log := log + [NotFound];
        return;
      }
      var id :| id in rows && rows[id].hash == hash;
      var row := rows[id];
      if row.revokedAt.Some? {
        answer := Some(if row.replacedBy.Some? then ReplayDetected(row.user) else Revoked);
      } else if row.expiresAt <= appNow {
        answer := Some(Expired);
      } else {
        answer := None;
        pending := pending[handle := Pending(id, row.user, row.workspace, row.session, now)];
        return;
      }
      log := log + [answer.value];
    }

    /** Second half of `rotate`: insert the successor, then revoke the old row
        only if it is still unrevoked; no row affected rolls the insert back. */
    method RotateCommit(handle: Handle, newId: Id, newHash: Hash, newJti: Jti, newExpiresAt: int)
      returns (answer: Outcome)
      requires Valid() && handle in pending
      modifies `rows, `pending, `log
      ensures Valid() && Contents() == Apply(old(Contents()), Commit(handle, newId, newHash, newJti, newExpiresAt))
      ensures answer == CommitOutcome(old(Contents()), Commit(handle, newId, newHash, newJti, newExpiresAt))
    {
      hide HashesDistinct;
      var p := pending[handle];
      var saved := rows;
      assert PendingOk(rows, now, p);
      pending := pending - {handle};
      if newId in rows || HashTaken(rows, newHash) {
        answer := DatabaseError;
      } else {
        rows := rows[newId := Row(p.user, p.workspace, newHash, newExpiresAt, None, None, now,
                                  p.session, Some(newJti), None, None)];
        var updated := 0;
        if rows[p.oldId].revokedAt.None? {
          rows := rows[p.oldId := rows[p.oldId].(revokedAt := Some(now), replacedBy := Some(newId))];
          updated := 1;
        }
        if updated == 0 {
          rows := saved;
          answer := ReplayDetected(p.user);
        } else {
          answer := Rotated(p.oldId, newId, p.user, p.workspace);
          InsertKeepsHashes(saved, rows, newId);
          RotationKeepsPending(saved, rows, now, p.oldId, newId, pending);
        }
      }
      log := log + [answer];
    }

    /** Log out everywhere: every active row of the user. */
    method RevokeAllForUser(user: User)
      requires Valid()
      modifies `rows
      ensures Valid() && Contents() == Apply(old(Contents()), RevokeAll(user))
    {
      if user in users {
        RevokeKeepsValid(rows, now, OfUser(user), pending);
        rows := RevokeWhere(rows, now, OfUser(user));
      }
    }

    /** The user-wide lever: close the rows and write the record together. */
    method RevokeUser(record: RevocationRecord) returns (closed: nat)
      requires Valid()
      modifies `rows, `audit
      ensures Valid() && Contents() == Apply(old(Contents()), Revoke(record))
      ensures closed == audit[|audit| - 1].closed
    {
      closed := |Affected(rows, OfTarget(record))|;
      RevokeKeepsValid(rows, now, OfTarget(record), pending);
      rows := RevokeWhere(rows, now, OfTarget(record));
      audit := audit + [AuditRow(record, closed, now)];
    }

    /** The narrow lever: one session's chain. */
    method RevokeOneSession(record: RevocationRecord, s: SessionId) returns (closed: nat)
      requires Valid()
      modifies `rows, `audit
      ensures Valid() && Contents() == Apply(old(Contents()), RevokeOne(record, s))
      ensures closed == audit[|audit| - 1].closed
    {
      closed := |Affected(rows, OfTargetSession(record, s))|;
      RevokeKeepsValid(rows, now, OfTargetSession(record, s), pending);
      rows := RevokeWhere(rows, now, OfTargetSession(record, s));
      audit := audit + [AuditRow(record, closed, now)];
    }

    /** An active row by its hash: unrevoked and unexpired, or none. */
    method FindActiveByHash(hash: Hash) returns (found: Option<Id>)
      ensures found.None? ==>
                forall id :: id in rows && rows[id].hash == hash ==>
                  rows[id].revokedAt.Some? || rows[id].expiresAt <= now
      ensures found.Some? ==>
                && found.value in rows && rows[found.value].hash == hash
                && rows[found.value].revokedAt.None? && now < rows[found.value].expiresAt
    {
      if exists id :: id in rows && rows[id].hash == hash && LiveRow(rows[id], now) {
        var id :| id in rows && rows[id].hash == hash && LiveRow(rows[id], now);
        found := Some(id);
      } else {
        found := None;
      }
    }
  }

  lemma RevokeKeepsValid(rows: Rows, now: int, sel: Row -> bool, pending: map<Handle, Pending>)
    requires HashesDistinct(rows) && AllPendingOk(rows, now, pending)
    ensures HashesDistinct(RevokeWhere(rows, now, sel))
    ensures AllPendingOk(RevokeWhere(rows, now, sel), now, pending)
  {
    RevokeIsOnlyRevokes(rows, now, sel);
    RevokeKeepsHashes(rows, RevokeWhere(rows, now, sel), now);
    RevokeKeepsPending(rows, RevokeWhere(rows, now, sel), now, pending);
  }

  /** `Valid` is the part of the protocol's invariant a transaction relies on, so
      every reachable state meets it. */
  lemma ReachableIsValid(st: State)
    requires Reachable(st)
    ensures HashesDistinct(st.rows) && AllPendingOk(st.rows, st.now, st.pending)
  {
    var chains := ReachableInv(st);
  }
}
