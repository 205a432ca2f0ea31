/** The refresh-token table and the atomic steps that change it.

    A session is a chain of rows that share a `session_id`. `rotate` is two
    transactions: a read-only probe that takes a snapshot, and a second
    transaction that inserts a successor and conditionally revokes the old row.
    Any other step may fall between the two, so the in-flight half is part of the
    state. Every transaction is one atomic step. */
module RefreshTokens {
  import opened Wrappers

  type Id = nat
  type User = nat
  type Workspace = nat
  type SessionId = nat
  type Hash = nat
  type Jti = nat
  type Handle = nat
  // A text column, represented by its rank under the database's collation.
  type Text = int

  datatype Row = Row(
    user: User,
    workspace: Workspace,
    hash: Hash,
    expiresAt: int,
    revokedAt: Option<int>,
    replacedBy: Option<Id>,
    createdAt: int,
    session: SessionId,
    accessJti: Option<Jti>,
    clientIp: Option<Text>,
    clientDescriptor: Option<Text>)

  type Rows = map<Id, Row>

  datatype NewSession = NewSession(
    user: User,
    workspace: Workspace,
    hash: Hash,
    expiresAt: int,
    session: SessionId,
    accessJti: Jti,
    clientIp: Option<Text>,
    clientDescriptor: Option<Text>)

  // What a rotation remembers from its probe until its second transaction.
  datatype Pending = Pending(
    oldId: Id,
    user: User,
    workspace: Workspace,
    session: SessionId,
    probedAt: int)

  datatype RevocationRecord = RevocationRecord(
    workspace: Workspace,
    actor: User,
    target: User,
    revokedBefore: int,
    session: Option<SessionId>)

  datatype AuditRow = AuditRow(record: RevocationRecord, closed: nat, createdAt: int)

  datatype Outcome =
    | Opened(id: Id)
    | Rotated(oldId: Id, newId: Id, user: User, workspace: Workspace)
    | ReplayDetected(user: User)
    | Revoked
    | NotFound
    | Expired
    | DatabaseError

  datatype State = State(
    now: int,
    users: map<User, Workspace>,
    rows: Rows,
    pending: map<Handle, Pending>,
    audit: seq<AuditRow>,
    log: seq<Outcome>)

  datatype Event =
    | SignIn(id: Id, opening: NewSession)
    | Probe(handle: Handle, hash: Hash, appNow: int)
    | Commit(handle: Handle, newId: Id, newHash: Hash, newJti: Jti, newExpiresAt: int)
    | RevokeAll(user: User)
    | Revoke(record: RevocationRecord)
    | RevokeOne(record: RevocationRecord, session: SessionId)
    | Tick(to: int)

  predicate HashTaken(rows: Rows, hash: Hash) {
    exists id :: id in rows && rows[id].hash == hash
  }

  predicate SessionKnown(rows: Rows, s: SessionId) {
    exists id :: id in rows && rows[id].session == s
  }

  predicate LiveRow(row: Row, now: int) {
    row.revokedAt.None? && row.expiresAt > now
  }

  // `id` is a primary key and `token_hash` is UNIQUE: an insert that would
  // break either fails and leaves the table as it was.
  predicate InsertAllowed(rows: Rows, id: Id, hash: Hash) {
    id !in rows && !HashTaken(rows, hash)
  }

  function SignInRow(n: NewSession, now: int): Row {
    Row(n.user, n.workspace, n.hash, n.expiresAt, None, None, now,
        n.session, Some(n.accessJti), n.clientIp, n.clientDescriptor)
  }

  // The successor inherits the session, not the device.
  function SuccessorRow(p: Pending, e: Event, now: int): Row
    requires e.Commit?
  {
    Row(p.user, p.workspace, e.newHash, e.newExpiresAt, None, None, now,
        p.session, Some(e.newJti), None, None)
  }

  // UPDATE refresh_tokens SET revoked_at = NOW() WHERE <sel> AND revoked_at IS NULL
  function RevokeWhere(rows: Rows, now: int, sel: Row -> bool): Rows {
    map id | id in rows ::
      if sel(rows[id]) && rows[id].revokedAt.None? then rows[id].(revokedAt := Some(now)) else rows[id]
  }

  // The rows such an UPDATE affects.
  function Affected(rows: Rows, sel: Row -> bool): set<Id> {
    set id | id in rows && sel(rows[id]) && rows[id].revokedAt.None?
  }

  function OfUser(user: User): Row -> bool {
    (r: Row) => r.user == user
  }

  function OfTarget(record: RevocationRecord): Row -> bool {
    (r: Row) => r.user == record.target && r.workspace == record.workspace
  }

  function OfTargetSession(record: RevocationRecord, s: SessionId): Row -> bool {
    (r: Row) => r.user == record.target && r.workspace == record.workspace && r.session == s
  }

  /** Reading the row the presented token hashes to, and answering from the
      snapshot when that is enough. `None` sends the rotation on to its second
      transaction. */
  function ProbeAnswer(row: Row, appNow: int): Option<Outcome> {
    if row.revokedAt.Some? then
      Some(if row.replacedBy.Some? then ReplayDetected(row.user) else Revoked)
    else if row.expiresAt <= appNow then Some(Expired)
    else None
  }

  ghost function RowByHash(rows: Rows, hash: Hash): (id: Id)
    requires HashTaken(rows, hash)
    ensures id in rows && rows[id].hash == hash
  {
    var id :| id in rows && rows[id].hash == hash; id
  }

  ghost function ProbeOutcome(st: State, hash: Hash, appNow: int): Option<Outcome> {
    if !HashTaken(st.rows, hash) then Some(NotFound)
    else ProbeAnswer(st.rows[RowByHash(st.rows, hash)], appNow)
  }

  ghost predicate Enabled(st: State, e: Event) {
    match e
    case SignIn(_, opening) => !SessionKnown(st.rows, opening.session)
    case Probe(handle, _, _) => handle !in st.pending
    case Commit(handle, _, _, _, _) => handle in st.pending
    case Tick(to) => st.now <= to
    case _ => true
  }

  ghost function AfterProbe(st: State, handle: Handle, hash: Hash, appNow: int): State {
    match ProbeOutcome(st, hash, appNow)
    case Some(answer) => st.(log := st.log + [answer])
    case None =>
      var id := RowByHash(st.rows, hash);
      var row := st.rows[id];
      st.(pending := st.pending[handle := Pending(id, row.user, row.workspace, row.session, st.now)])
  }

  function CommitOutcome(st: State, e: Event): Outcome
    requires e.Commit? && e.handle in st.pending
  {
    var p := st.pending[e.handle];
    if !InsertAllowed(st.rows, e.newId, e.newHash) then DatabaseError
    else if p.oldId in st.rows && st.rows[p.oldId].revokedAt.None? then
      Rotated(p.oldId, e.newId, p.user, p.workspace)
    else ReplayDetected(p.user)
  }

  function AfterCommit(st: State, e: Event): State
    requires e.Commit? && e.handle in st.pending
  {
    var p := st.pending[e.handle];
    var answer := CommitOutcome(st, e);
    var rows :=
      if answer.Rotated? then
        st.rows[p.oldId := st.rows[p.oldId].(revokedAt := Some(st.now), replacedBy := Some(e.newId))]
               [e.newId := SuccessorRow(p, e, st.now)]
      else st.rows;
    st.(rows := rows, pending := st.pending - {e.handle}, log := st.log + [answer])
  }

  function AfterRevoke(st: State, record: RevocationRecord, sel: Row -> bool): State {
    st.(rows := RevokeWhere(st.rows, st.now, sel),
        audit := st.audit + [AuditRow(record, |Affected(st.rows, sel)|, st.now)])
  }

  /** One atomic step. */
  ghost function Apply(st: State, e: Event): State
    requires Enabled(st, e)
  {
    match e
    case SignIn(id, opening) =>
      if InsertAllowed(st.rows, id, opening.hash) then
        st.(rows := st.rows[id := SignInRow(opening, st.now)], log := st.log + [Opened(id)])
      else st.(log := st.log + [DatabaseError])
    case Probe(handle, hash, appNow) => AfterProbe(st, handle, hash, appNow)
    case Commit(_, _, _, _, _) => AfterCommit(st, e)
    case RevokeAll(user) =>
      if user in st.users then st.(rows := RevokeWhere(st.rows, st.now, OfUser(user))) else st
    case Revoke(record) => AfterRevoke(st, record, OfTarget(record))
    case RevokeOne(record, s) => AfterRevoke(st, record, OfTargetSession(record, s))
    case Tick(to) => st.(now := to)
  }

  ghost predicate Initial(st: State) {
    st.rows == map[] && st.pending == map[] && st.audit == [] && st.log == []
  }

  /** Every event of the run is enabled when its turn comes. */
  ghost predicate Legal(st: State, run: seq<Event>)
    decreases |run|
  {
    run == [] || (Enabled(st, run[0]) && Legal(Apply(st, run[0]), run[1..]))
  }

  ghost function Run(st: State, run: seq<Event>): State
    requires Legal(st, run)
    decreases |run|
  {
    if run == [] then st else Run(Apply(st, run[0]), run[1..])
  }

  ghost predicate Reachable(st: State) {
    exists start, run :: Initial(start) && Legal(start, run) && Run(start, run) == st
  }

  /** SELECT MAX(revoked_before_unix) over the user-wide records. */
  function LatestWatermark(audit: seq<AuditRow>, workspace: Workspace, user: User): Option<int> {
    if audit == [] then None
    else
      var r := audit[|audit| - 1].record;
      var rest := LatestWatermark(audit[..|audit| - 1], workspace, user);
      if r.target == user && r.workspace == workspace && r.session.None?
         && (rest.None? || rest.value < r.revokedBefore)
      then Some(r.revokedBefore)
      else rest
  }
}
