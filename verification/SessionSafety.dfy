/** What every run of the session protocol keeps, however rotations, sign-ins and
    revocations interleave. */
module SessionSafety {
  import opened Wrappers
  import opened RefreshTokens

  type Chains = map<SessionId, seq<Id>>

  // ----- The chain view of a session

  // Row `i` was replaced by row `i + 1`.
  ghost predicate LinkAt(rows: Rows, ids: seq<Id>, i: nat)
    requires i + 1 < |ids|
  {
    ids[i] in rows && rows[ids[i]].replacedBy == Some(ids[i + 1]) && rows[ids[i]].revokedAt.Some?
  }

  /** `ids` lists exactly the rows of session `s`, in `replaced_by` order: every
      row but the last is revoked and names the next one, the last names none. */
  ghost predicate IsChain(rows: Rows, s: SessionId, ids: seq<Id>) {
    && ids != []
    && (forall i, j :: 0 <= i < j < |ids| ==> ids[i] != ids[j])
    && (forall i :: 0 <= i < |ids| ==> ids[i] in rows && rows[ids[i]].session == s)
    && (forall i :: 0 <= i < |ids| ==>
          rows[ids[i]].user == rows[ids[0]].user && rows[ids[i]].workspace == rows[ids[0]].workspace)
    && (forall id :: id in rows && rows[id].session == s ==> id in ids)
    && (forall i :: 0 <= i < |ids| - 1 ==> LinkAt(rows, ids, i))
    && rows[ids[|ids| - 1]].replacedBy.None?
  }

  /** Rows are minted in chain order, and only the sign-in row describes a device. */
  ghost predicate Chronology(rows: Rows, now: int, ids: seq<Id>) {
    && (forall i :: 0 <= i < |ids| ==> ids[i] in rows && rows[ids[i]].createdAt <= now)
    && (forall i, j :: 0 <= i <= j < |ids| ==> rows[ids[i]].createdAt <= rows[ids[j]].createdAt)
    && (forall i :: 0 < i < |ids| ==>
          rows[ids[i]].clientIp.None? && rows[ids[i]].clientDescriptor.None?)
  }

  ghost predicate Covered(rows: Rows, chains: Chains) {
    forall id :: id in rows ==> rows[id].session in chains
  }

  ghost predicate AllChains(rows: Rows, now: int, chains: Chains) {
    forall s :: s in chains ==> IsChain(rows, s, chains[s]) && Chronology(rows, now, chains[s])
  }

  ghost predicate ChainsOk(rows: Rows, now: int, chains: Chains) {
    Covered(rows, chains) && AllChains(rows, now, chains)
  }

  /** Every chain starts at a row some sign-in opened. */
  ghost predicate RootsOpened(chains: Chains, log: seq<Outcome>) {
    forall s :: s in chains ==> chains[s] != [] && Opened(chains[s][0]) in log
  }

  ghost predicate HashesDistinct(rows: Rows) {
    forall a, b :: a in rows && b in rows && rows[a].hash == rows[b].hash ==> a == b
  }

  /** A rotation of row `id` was committed. */
  ghost predicate WasRotated(log: seq<Outcome>, id: Id) {
    exists i :: 0 <= i < |log| && log[i].Rotated? && log[i].oldId == id
  }

  ghost predicate LogOk(rows: Rows, log: seq<Outcome>) {
    && (forall i :: 0 <= i < |log| && log[i].Rotated? ==>
          && log[i].oldId in rows
          && rows[log[i].oldId].replacedBy == Some(log[i].newId))
    && (forall i, j :: 0 <= i < j < |log| && log[i].Rotated? && log[j].Rotated? ==>
          log[i].oldId != log[j].oldId)
    && (forall id :: id in rows && rows[id].replacedBy.Some? ==> WasRotated(log, id))
  }

  /** An in-flight rotation still describes a row of the table, and whatever
      revoked that row did so no earlier than the probe. */
  ghost predicate PendingOk(rows: Rows, now: int, p: Pending) {
    && p.oldId in rows
    && rows[p.oldId].user == p.user
    && rows[p.oldId].workspace == p.workspace
    && rows[p.oldId].session == p.session
    && p.probedAt <= now
    && (rows[p.oldId].revokedAt.Some? ==> p.probedAt <= rows[p.oldId].revokedAt.value)
  }

  ghost predicate AllPendingOk(rows: Rows, now: int, pending: map<Handle, Pending>) {
    forall h :: h in pending ==> PendingOk(rows, now, pending[h])
  }

  ghost predicate Inv(st: State, chains: Chains) {
    && ChainsOk(st.rows, st.now, chains)
    && RootsOpened(chains, st.log)
    && HashesDistinct(st.rows)
    && LogOk(st.rows, st.log)
    && AllPendingOk(st.rows, st.now, st.pending)
  }

  // ----- Every step keeps the invariant

  lemma LogAppend(rows: Rows, chains: Chains, log: seq<Outcome>, o: Outcome)
    requires LogOk(rows, log) && RootsOpened(chains, log) && !o.Rotated?
    ensures LogOk(rows, log + [o]) && RootsOpened(chains, log + [o])
  {
    forall id | id in rows && rows[id].replacedBy.Some? ensures WasRotated(log + [o], id) {
      var i :| 0 <= i < |log| && log[i].Rotated? && log[i].oldId == id;
      assert (log + [o])[i] == log[i];
    }
  }

  // `rows'` is `rows` with some rows revoked at `now`.
  ghost predicate OnlyRevokes(rows: Rows, rows': Rows, now: int) {
    && rows'.Keys == rows.Keys
    && (forall id :: id in rows ==>
          rows'[id] == rows[id] || (rows[id].revokedAt.None? && rows'[id] == rows[id].(revokedAt := Some(now))))
  }

  lemma RevokeKeepsChain(rows: Rows, rows': Rows, now: int, s: SessionId, ids: seq<Id>)
    requires OnlyRevokes(rows, rows', now) && IsChain(rows, s, ids)
    ensures IsChain(rows', s, ids)
  {
    forall i | 0 <= i < |ids| - 1 ensures LinkAt(rows', ids, i) {
      assert LinkAt(rows, ids, i);
    }
  }

  lemma RevokeKeepsChronology(rows: Rows, rows': Rows, now: int, ids: seq<Id>)
    requires OnlyRevokes(rows, rows', now) && Chronology(rows, now, ids)
    ensures Chronology(rows', now, ids)
  {
  }

  lemma RevokeKeepsLog(rows: Rows, rows': Rows, now: int, log: seq<Outcome>)
    requires OnlyRevokes(rows, rows', now) && LogOk(rows, log)
    ensures LogOk(rows', log)
  {
    forall id | id in rows' && rows'[id].replacedBy.Some? ensures WasRotated(log, id) {
      assert rows[id].replacedBy.Some?;
    }
  }

  lemma RevokeKeepsPending(rows: Rows, rows': Rows, now: int, pending: map<Handle, Pending>)
    requires OnlyRevokes(rows, rows', now) && AllPendingOk(rows, now, pending)
    ensures AllPendingOk(rows', now, pending)
  {
    forall h | h in pending ensures PendingOk(rows', now, pending[h]) {
      assert PendingOk(rows, now, pending[h]);
    }
  }

  lemma RevokeKeepsChains(rows: Rows, rows': Rows, now: int, chains: Chains)
    requires OnlyRevokes(rows, rows', now) && AllChains(rows, now, chains)
    ensures AllChains(rows', now, chains)
  {
    forall s | s in chains ensures IsChain(rows', s, chains[s]) && Chronology(rows', now, chains[s]) {
      RevokeKeepsChain(rows, rows', now, s, chains[s]);
      RevokeKeepsChronology(rows, rows', now, chains[s]);
    }
  }

  lemma RevokeKeepsCovered(rows: Rows, rows': Rows, now: int, chains: Chains)
    requires OnlyRevokes(rows, rows', now) && Covered(rows, chains)
    ensures Covered(rows', chains)
  {
  }

  lemma RevokeKeepsInv(st: State, chains: Chains, sel: Row -> bool)
    requires Inv(st, chains)
    ensures Inv(st.(rows := RevokeWhere(st.rows, st.now, sel)), chains)
  {
    var rows' := RevokeWhere(st.rows, st.now, sel);
    RevokeIsOnlyRevokes(st.rows, st.now, sel);
    RevokeKeepsChains(st.rows, rows', st.now, chains);
    RevokeKeepsCovered(st.rows, rows', st.now, chains);
    RevokeKeepsLog(st.rows, rows', st.now, st.log);
    RevokeKeepsPending(st.rows, rows', st.now, st.pending);
    RevokeKeepsHashes(st.rows, rows', st.now);
  }

  lemma RevokeIsOnlyRevokes(rows: Rows, now: int, sel: Row -> bool)
    ensures OnlyRevokes(rows, RevokeWhere(rows, now, sel), now)
  {
  }

  lemma RevokeKeepsHashes(rows: Rows, rows': Rows, now: int)
    requires OnlyRevokes(rows, rows', now) && HashesDistinct(rows)
    ensures HashesDistinct(rows')
  {
  }

  lemma OtherChainKept(rows: Rows, rows': Rows, now: int, s: SessionId, ids: seq<Id>)
    requires IsChain(rows, s, ids) && Chronology(rows, now, ids)
    requires rows.Keys <= rows'.Keys
    requires forall id :: id in rows && rows[id].session == s ==> rows'[id] == rows[id]
    requires forall id :: id in rows' && id !in rows ==> rows'[id].session != s
    requires forall id :: id in rows ==> rows'[id].session == rows[id].session
    ensures IsChain(rows', s, ids)
    ensures Chronology(rows', now, ids)
  {
    assert forall i :: 0 <= i < |ids| ==> rows'[ids[i]] == rows[ids[i]];
    forall i | 0 <= i < |ids| - 1 ensures LinkAt(rows', ids, i) {
      assert LinkAt(rows, ids, i);
    }
  }

  lemma InsertKeepsHashes(rows: Rows, rows': Rows, id: Id)
    requires HashesDistinct(rows) && id !in rows && rows'.Keys == rows.Keys + {id}
    requires forall k :: k in rows ==> rows'[k].hash == rows[k].hash
    requires !HashTaken(rows, rows'[id].hash)
    ensures HashesDistinct(rows')
  {
  }

  lemma SignInKeepsInv(st: State, chains: Chains, e: Event) returns (chains': Chains)
    requires Inv(st, chains) && e.SignIn? && Enabled(st, e)
    ensures Inv(Apply(st, e), chains')
  {
    hide IsChain, Chronology, AllChains, LogOk, HashesDistinct, RootsOpened, AllPendingOk;
    if !InsertAllowed(st.rows, e.id, e.opening.hash) {
      chains' := chains;
      LogAppend(st.rows, chains, st.log, DatabaseError);
      return;
    }
    var rows' := st.rows[e.id := SignInRow(e.opening, st.now)];
    var s := e.opening.session;
    chains' := chains[s := [e.id]];
    LogAppend(st.rows, chains, st.log, Opened(e.id));
    SignInOpensRoot(chains, st.log, s, e.id);
    SignInKeepsPending(st.rows, rows', st.now, e.id, st.pending);
    SignInKeepsLog(st.rows, rows', e.id, st.log + [Opened(e.id)]);
    InsertKeepsHashes(st.rows, rows', e.id);
    SignInKeepsChains(st.rows, rows', st.now, e.id, e.opening, chains);
    SignInKeepsCovered(st.rows, rows', st.now, e.id, e.opening, chains);
  }

  lemma SignInKeepsPending(rows: Rows, rows': Rows, now: int, id: Id, pending: map<Handle, Pending>)
    requires AllPendingOk(rows, now, pending) && id !in rows && id in rows' && rows' == rows[id := rows'[id]]
    ensures AllPendingOk(rows', now, pending)
  {
    forall h | h in pending ensures PendingOk(rows', now, pending[h]) {
      assert PendingOk(rows, now, pending[h]);
    }
  }

  lemma SignInOpensRoot(chains: Chains, log: seq<Outcome>, s: SessionId, id: Id)
    requires RootsOpened(chains, log)
    ensures RootsOpened(chains[s := [id]], log + [Opened(id)])
  {
    assert (log + [Opened(id)])[|log|] == Opened(id);
  }

  lemma SignInKeepsChains(rows: Rows, rows': Rows, now: int, id: Id, opening: NewSession, chains: Chains)
    requires AllChains(rows, now, chains) && id !in rows && !SessionKnown(rows, opening.session)
    requires rows' == rows[id := SignInRow(opening, now)]
    ensures AllChains(rows', now, chains[opening.session := [id]])
  {
    var chains' := chains[opening.session := [id]];
    forall t | t in chains' ensures IsChain(rows', t, chains'[t]) && Chronology(rows', now, chains'[t]) {
      if t == opening.session {
        SignInStartsChain(rows, rows', id, opening, now);
      } else {
        OtherChainKept(rows, rows', now, t, chains[t]);
      }
    }
  }

  lemma SignInKeepsCovered(rows: Rows, rows': Rows, now: int, id: Id, opening: NewSession, chains: Chains)
    requires Covered(rows, chains) && rows' == rows[id := SignInRow(opening, now)]
    ensures Covered(rows', chains[opening.session := [id]])
  {
  }

  lemma SignInKeepsLog(rows: Rows, rows': Rows, id: Id, log: seq<Outcome>)
    requires LogOk(rows, log) && id !in rows && rows'.Keys == rows.Keys + {id} && rows'[id].replacedBy.None?
    requires forall k :: k in rows ==> rows'[k] == rows[k]
    ensures LogOk(rows', log)
  {
    forall k | k in rows' && rows'[k].replacedBy.Some? ensures WasRotated(log, k) {
      assert rows[k].replacedBy.Some?;
    }
  }

  lemma SignInStartsChain(rows: Rows, rows': Rows, id: Id, opening: NewSession, now: int)
    requires rows' == rows[id := SignInRow(opening, now)] && !SessionKnown(rows, opening.session)
    ensures IsChain(rows', opening.session, [id]) && Chronology(rows', now, [id])
  {
  }

  // A step that only answers appends to the log and changes nothing else.
  lemma AnswerKeepsInv(st: State, chains: Chains, answer: Outcome)
    requires Inv(st, chains) && !answer.Rotated?
    ensures Inv(st.(log := st.log + [answer]), chains)
  {
    LogAppend(st.rows, chains, st.log, answer);
  }

  lemma ProbeShape(st: State, e: Event)
    requires e.Probe? && Enabled(st, e)
    ensures var st' := Apply(st, e);
            || (exists answer: Outcome :: !answer.Rotated? && st' == st.(log := st.log + [answer]))
            || (exists id :: id in st.rows && st.rows[id].revokedAt.None?
                  && st' == st.(pending := st.pending[e.handle := SnapshotOf(st, id)]))
  {
    var answer := ProbeOutcome(st, e.hash, e.appNow);
    if answer.Some? {
      assert Apply(st, e) == st.(log := st.log + [answer.value]);
    } else {
      var id := RowByHash(st.rows, e.hash);
      assert Apply(st, e) == st.(pending := st.pending[e.handle := SnapshotOf(st, id)]);
    }
  }

  ghost function SnapshotOf(st: State, id: Id): Pending
    requires id in st.rows
  {
    var row := st.rows[id];
    Pending(id, row.user, row.workspace, row.session, st.now)
  }

  lemma ProbeKeepsInv(st: State, chains: Chains, st': State, h: Handle)
    requires Inv(st, chains)
    requires || (exists answer: Outcome :: !answer.Rotated? && st' == st.(log := st.log + [answer]))
             || (exists id :: id in st.rows && st.rows[id].revokedAt.None?
                   && st' == st.(pending := st.pending[h := SnapshotOf(st, id)]))
    ensures Inv(st', chains)
  {
    if answer: Outcome :| !answer.Rotated? && st' == st.(log := st.log + [answer]) {
      AnswerKeepsInv(st, chains, answer);
    } else {
      var id :| id in st.rows && st.rows[id].revokedAt.None?
        && st' == st.(pending := st.pending[h := SnapshotOf(st, id)]);
      PendingAdded(st.rows, st.now, st.pending, h, id);
    }
  }

  lemma PendingAdded(rows: Rows, now: int, pending: map<Handle, Pending>, h: Handle, id: Id)
    requires AllPendingOk(rows, now, pending) && id in rows && rows[id].revokedAt.None?
    ensures AllPendingOk(rows, now, pending[h := Pending(id, rows[id].user, rows[id].workspace, rows[id].session, now)])
  {
  }

  lemma UnrevokedIsLast(rows: Rows, s: SessionId, ids: seq<Id>, id: Id)
    requires IsChain(rows, s, ids) && id in rows && rows[id].session == s && rows[id].revokedAt.None?
    ensures id == ids[|ids| - 1]
  {
    var i :| 0 <= i < |ids| && ids[i] == id;
    assert i < |ids| - 1 ==> LinkAt(rows, ids, i);
  }

  // `rows'` is `rows` after a committed rotation of `was` to `new`.
  ghost predicate Rotates(rows: Rows, rows': Rows, now: int, was: Id, succ: Id) {
    && was in rows && succ !in rows && rows[was].revokedAt.None?
    && rows'.Keys == rows.Keys + {succ}
    && rows'[was] == rows[was].(revokedAt := Some(now), replacedBy := Some(succ))
    && (forall id :: id in rows && id != was ==> rows'[id] == rows[id])
    && rows'[succ].session == rows[was].session
    && rows'[succ].user == rows[was].user
    && rows'[succ].workspace == rows[was].workspace
    && rows'[succ].replacedBy.None?
    && rows'[succ].createdAt == now
    && rows'[succ].clientIp.None? && rows'[succ].clientDescriptor.None?
  }

  lemma ExtendChain(rows: Rows, rows': Rows, now: int, was: Id, succ: Id, ids: seq<Id>)
    requires Rotates(rows, rows', now, was, succ)
    requires IsChain(rows, rows[was].session, ids)
    ensures IsChain(rows', rows[was].session, ids + [succ])
  {
    var s, ids' := rows[was].session, ids + [succ];
    UnrevokedIsLast(rows, s, ids, was);
    assert forall i :: 0 <= i < |ids| ==> ids'[i] == ids[i];
    forall i | 0 <= i < |ids'| - 1 ensures LinkAt(rows', ids', i) {
      if i < |ids| - 1 {
        assert LinkAt(rows, ids, i) && ids[i] != ids[|ids| - 1];
      }
    }
    forall id | id in rows' && rows'[id].session == s ensures id in ids' {
      if id != succ {
        assert id in ids;
      }
    }
  }

  lemma ExtendChronology(rows: Rows, rows': Rows, now: int, was: Id, succ: Id, ids: seq<Id>)
    requires Rotates(rows, rows', now, was, succ) && Chronology(rows, now, ids)
    ensures Chronology(rows', now, ids + [succ])
  {
    var ids' := ids + [succ];
    forall i | 0 <= i < |ids'|
      ensures ids'[i] in rows' && rows'[ids'[i]].createdAt <= now
      ensures i < |ids| ==> rows'[ids'[i]].createdAt == rows[ids[i]].createdAt
      ensures 0 < i ==> rows'[ids'[i]].clientIp.None? && rows'[ids'[i]].clientDescriptor.None?
    {
      if i < |ids| {
        assert ids'[i] == ids[i];
      }
    }
  }

  lemma RotationKeepsLog(rows: Rows, rows': Rows, now: int, log: seq<Outcome>, o: Outcome)
    requires LogOk(rows, log) && o.Rotated? && Rotates(rows, rows', now, o.oldId, o.newId)
    requires rows[o.oldId].replacedBy.None?
    ensures LogOk(rows', log + [o])
  {
    var log' := log + [o];
    forall id | id in rows' && rows'[id].replacedBy.Some? ensures WasRotated(log', id) {
      if id == o.oldId {
        assert log'[|log|].oldId == id;
      } else {
        assert WasRotated(log, id);
        var i :| 0 <= i < |log| && log[i].Rotated? && log[i].oldId == id;
        assert log'[i] == log[i];
      }
    }
  }

  lemma RotationKeepsPending(rows: Rows, rows': Rows, now: int, was: Id, succ: Id, pending: map<Handle, Pending>)
    requires Rotates(rows, rows', now, was, succ) && AllPendingOk(rows, now, pending)
    ensures AllPendingOk(rows', now, pending)
  {
    forall h | h in pending ensures PendingOk(rows', now, pending[h]) {
      assert PendingOk(rows, now, pending[h]);
    }
  }

  lemma RotatedChain(rows: Rows, rows': Rows, now: int, was: Id, succ: Id, t: SessionId, ids: seq<Id>)
    requires Rotates(rows, rows', now, was, succ) && IsChain(rows, t, ids) && Chronology(rows, now, ids)
    ensures t == rows[was].session ==> IsChain(rows', t, ids + [succ]) && Chronology(rows', now, ids + [succ])
    ensures t != rows[was].session ==> IsChain(rows', t, ids) && Chronology(rows', now, ids)
  {
    hide IsChain, Chronology;
    if t == rows[was].session {
      ExtendChain(rows, rows', now, was, succ, ids);
      ExtendChronology(rows, rows', now, was, succ, ids);
    } else {
      OtherChainKept(rows, rows', now, t, ids);
    }
  }

  lemma RotationKeepsChains(rows: Rows, rows': Rows, now: int, was: Id, succ: Id, chains: Chains)
    requires Rotates(rows, rows', now, was, succ) && AllChains(rows, now, chains) && rows[was].session in chains
    ensures AllChains(rows', now, chains[rows[was].session := chains[rows[was].session] + [succ]])
  {
    hide IsChain, Chronology;
    var s := rows[was].session;
    var chains' := chains[s := chains[s] + [succ]];
    forall t | t in chains' ensures IsChain(rows', t, chains'[t]) && Chronology(rows', now, chains'[t]) {
      RotatedChain(rows, rows', now, was, succ, t, chains[t]);
    }
  }

  lemma SessionsStayKnown(rows: Rows, rows': Rows, now: int, was: Id, succ: Id, chains: Chains, ids: seq<Id>)
    requires Rotates(rows, rows', now, was, succ) && Covered(rows, chains)
    ensures Covered(rows', chains[rows[was].session := ids])
  {
  }

  lemma CommitRotates(st: State, e: Event)
    requires e.Commit? && e.handle in st.pending && CommitOutcome(st, e).Rotated?
    requires PendingOk(st.rows, st.now, st.pending[e.handle])
    ensures Rotates(st.rows, AfterCommit(st, e).rows, st.now, st.pending[e.handle].oldId, e.newId)
  {
  }

  // An unrevoked row has no successor.
  lemma UnrevokedNotReplaced(rows: Rows, now: int, chains: Chains, id: Id)
    requires ChainsOk(rows, now, chains) && id in rows && rows[id].revokedAt.None?
    ensures rows[id].replacedBy.None?
  {
    UnrevokedIsLast(rows, rows[id].session, chains[rows[id].session], id);
  }

  lemma RootsStayOpened(chains: Chains, log: seq<Outcome>, s: SessionId, succ: Id, o: Outcome)
    requires RootsOpened(chains, log) && s in chains
    ensures RootsOpened(chains[s := chains[s] + [succ]], log + [o])
  {
  }

  lemma RotationKeepsInv(st: State, chains: Chains, e: Event) returns (chains': Chains)
    requires Inv(st, chains) && e.Commit? && e.handle in st.pending && CommitOutcome(st, e).Rotated?
    ensures Inv(AfterCommit(st, e), chains')
  {
    hide IsChain, Chronology, AllChains, LogOk, HashesDistinct;
    var p := st.pending[e.handle];
    var answer := CommitOutcome(st, e);
    assert PendingOk(st.rows, st.now, p);
    var rows' := AfterCommit(st, e).rows;
    CommitRotates(st, e);
    RotationKeepsChains(st.rows, rows', st.now, p.oldId, e.newId, chains);
    SessionsStayKnown(st.rows, rows', st.now, p.oldId, e.newId, chains, chains[p.session] + [e.newId]);
    chains' := chains[p.session := chains[p.session] + [e.newId]];
    UnrevokedNotReplaced(st.rows, st.now, chains, p.oldId);
    RotationKeepsLog(st.rows, rows', st.now, st.log, answer);
    PendingRemoved(st.rows, st.now, st.pending, e.handle);
    RotationKeepsPending(st.rows, rows', st.now, p.oldId, e.newId, st.pending - {e.handle});
    InsertKeepsHashes(st.rows, rows', e.newId);
    RootsStayOpened(chains, st.log, p.session, e.newId, answer);
  }

  lemma PendingRemoved(rows: Rows, now: int, pending: map<Handle, Pending>, h: Handle)
    requires AllPendingOk(rows, now, pending)
    ensures AllPendingOk(rows, now, pending - {h})
  {
  }

  lemma CommitKeepsInv(st: State, chains: Chains, e: Event) returns (chains': Chains)
    requires Inv(st, chains) && e.Commit? && Enabled(st, e)
    ensures Inv(Apply(st, e), chains')
  {
    var answer := CommitOutcome(st, e);
    if answer.Rotated? {
      chains' := RotationKeepsInv(st, chains, e);
    } else {
      chains' := chains;
      LogAppend(st.rows, chains, st.log, answer);
      PendingRemoved(st.rows, st.now, st.pending, e.handle);
    }
  }

  lemma StepKeepsInv(st: State, chains: Chains, e: Event) returns (chains': Chains)
    requires Inv(st, chains) && Enabled(st, e)
    ensures Inv(Apply(st, e), chains')
  {
    chains' := chains;
    match e
    case SignIn(_, _) => chains' := SignInKeepsInv(st, chains, e);
    case Probe(h, _, _) => ProbeShape(st, e); ProbeKeepsInv(st, chains, Apply(st, e), h);
    case Commit(_, _, _, _, _) => chains' := CommitKeepsInv(st, chains, e);
    case RevokeAll(user) => RevokeKeepsInv(st, chains, OfUser(user));
    case Revoke(record) => RevokeKeepsInv(st, chains, OfTarget(record));
    case RevokeOne(record, s) => RevokeKeepsInv(st, chains, OfTargetSession(record, s));
    case Tick(_) => TickKeepsInv(st, chains, e);
  }

  lemma TickKeepsInv(st: State, chains: Chains, e: Event)
    requires Inv(st, chains) && e.Tick? && Enabled(st, e)
    ensures Inv(Apply(st, e), chains)
  {
    forall s | s in chains ensures IsChain(st.rows, s, chains[s]) && Chronology(st.rows, e.to, chains[s]) {
      assert Chronology(st.rows, st.now, chains[s]);
    }
  }

  lemma {:induction false} RunKeepsInv(st: State, chains: Chains, run: seq<Event>) returns (chains': Chains)
    requires Inv(st, chains) && Legal(st, run)
    ensures Inv(Run(st, run), chains')
    decreases |run|
  {
    if run == [] {
      chains' := chains;
    } else {
      chains' := StepKeepsInv(st, chains, run[0]);
      chains' := RunKeepsInv(Apply(st, run[0]), chains', run[1..]);
    }
  }

  lemma ReachableInv(st: State) returns (chains: Chains)
    requires Reachable(st)
    ensures Inv(st, chains)
  {
    var start, run :| Initial(start) && Legal(start, run) && Run(start, run) == st;
    chains := RunKeepsInv(start, map[], run);
  }
}
