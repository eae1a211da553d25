/**
 Two database sessions that take turns by passing advisory locks.

 Session T1 does the even work segments and T2 the odd ones.  Segment k+1 may
 start only when segment k is done, and gate k+1 enforces that: the session of
 segment k holds the gate from the start and unlocks it when the segment is
 done, while the other session locks it, and unlocks it at once, before it
 starts segment k+1.  Before any of this each session announces itself with a
 readiness lock and polls for the other's.

 The scripts in the repository use five gates and readiness locks 6 and 7;
 here the number of gates is arbitrary.
 */
module Handshake {
  import opened Sorting
  import opened Wrappers

  datatype Session = T1 | T2

  function Other(s: Session): Session {
    if s == T1 then T2 else T1
  }

  // ---------------------------------------------------------------- advisory locks

  /** A session-level advisory lock is re-entrant: `depth` counts its acquisitions. */
  datatype Hold = Hold(who: Session, depth: nat)

  type Locks = map<nat, Hold>

  predicate Owns(l: Locks, s: Session, k: nat) {
    k in l && l[k].who == s
  }

  /** True when `pg_try_advisory_lock(k)` would succeed and `pg_advisory_lock(k)` would not wait. */
  predicate Available(l: Locks, s: Session, k: nat) {
    k in l ==> l[k].who == s
  }

  function Acquire(l: Locks, s: Session, k: nat): Locks {
    l[k := Hold(s, if Owns(l, s, k) then l[k].depth + 1 else 1)]
  }

  /** Unlocking a lock the session does not hold only draws a warning. */
  function Release(l: Locks, s: Session, k: nat): Locks {
    if !Owns(l, s, k) then l
    else if l[k].depth > 1 then l[k := Hold(s, l[k].depth - 1)]
    else l - {k}
  }

  /** The end of a session releases everything it holds. */
  function ReleaseAll(l: Locks, s: Session): Locks {
    map k | k in l && l[k].who != s :: l[k]
  }

  // ---------------------------------------------------------------- the table

  datatype Op =
    | Select(who: Session, step: nat)
    | Insert(who: Session, step: nat, val: int)
    | Commit(who: Session, step: nat)

  datatype Txn = Initial | Of(session: Session)

  /** A row version and the transaction that wrote it. */
  datatype Row = Row(val: int, writer: Txn)

  /** `snapshot` is the one T2 reads from once it is fixed: the transactions committed by then. */
  datatype Db = Db(rows: seq<Row>, committed: set<Txn>, snapshot: Option<set<Txn>>)

  function Visible(rows: seq<Row>, seen: set<Txn>): seq<int> {
    if rows == [] then []
    else (if rows[0].writer in seen then [rows[0].val] else []) + Visible(rows[1..], seen)
  }

  /** REPEATABLE READ fixes its snapshot at the first query that has to read. */
  function Fix(db: Db): Db {
    if db.snapshot.Some? then db else db.(snapshot := Some(db.committed))
  }

  /** READ COMMITTED (T1) looks at what is committed now, REPEATABLE READ (T2) at its snapshot. */
  function Seen(db: Db, s: Session): set<Txn> {
    {Of(s)} + if s == T1 then db.committed else Fix(db).snapshot.value
  }

  function Read(db: Db, s: Session): seq<int> {
    OrderBy(Visible(db.rows, Seen(db, s)))
  }

  function Execute(db: Db, op: Op): Db {
    match op
    case Select(s, _) => if s == T1 then db else Fix(db)
    case Insert(s, _, v) => db.(rows := db.rows + [Row(v, Of(s))])
    case Commit(s, _) => db.(committed := db.committed + {Of(s)})
  }

  // ---------------------------------------------------------------- the scripts

  /** The session whose turn segment `k` is; it is also the session that holds gate `k + 1`. */
  function Turn(k: nat): Session {
    if k % 2 == 0 then T1 else T2
  }

  datatype Protocol = Protocol(work: seq<seq<Op>>) {
    /** Every segment's statements belong to the session whose turn it is. */
    ghost predicate Valid() {
      && work != []
      && forall k, i :: 0 <= k < |work| && 0 <= i < |work[k]| ==> work[k][i].who == Turn(k)
    }

    /** The number of gates; the last segment has this number too. */
    function Gates(): nat
      requires work != []
    {
      |work| - 1
    }

    /** The readiness locks are numbered after the gates, T1's first. */
    function Ready(s: Session): nat
      requires work != []
    {
      Gates() + if s == T1 then 1 else 2
    }
  }

  /** Where a session stands: the statement it is about to execute. */
  datatype Pos =
    | Claim(gate: nat)         // lock one of its own gates
    | Announce                 // lock its own readiness lock
    | Try                      // in the polling loop: try the other's readiness lock
    | Undo                     // in the polling loop: got it, unlock it again
    | Begin                    // BEGIN and SET TRANSACTION
    | Wait(gate: nat)          // lock the other's gate; past the last gate: the script has ended
    | Pass(gate: nat)          // unlock that gate again
    | Work(k: nat, i: nat)     // statement i of segment k; past its end: unlock gate k + 1
    | Gone                     // disconnected

  datatype Stmt =
    | Lock(id: nat)
    | Unlock(id: nat)
    | Poll(id: nat)
    | BeginTxn
    | Do(op: Op)
    | Quit

  predicate ValidPos(p: Protocol, s: Session, pos: Pos)
    requires p.work != []
  {
    match pos
    case Claim(g) => 1 <= g <= p.Gates() && Turn(g - 1) == s
    case Wait(g) => 1 <= g <= p.Gates() + 1 && Turn(g - 1) != s
    case Pass(g) => 1 <= g <= p.Gates() && Turn(g) == s
    case Work(k, i) => k <= p.Gates() && Turn(k) == s && i <= |p.work[k]|
    case _ => true
  }

  function StmtAt(p: Protocol, s: Session, pos: Pos): Stmt
    requires p.work != [] && ValidPos(p, s, pos)
  {
    match pos
    case Claim(g) => Lock(g)
    case Announce => Lock(p.Ready(s))
    case Try => Poll(p.Ready(Other(s)))
    case Undo => Unlock(p.Ready(Other(s)))
    case Begin => BeginTxn
    case Wait(g) => if g <= p.Gates() then Lock(g) else Quit
    case Pass(g) => Unlock(g)
    case Work(k, i) =>
      if i < |p.work[k]| then Do(p.work[k][i])
      else if k < p.Gates() then Unlock(k + 1)
      else Quit
    case Gone => Quit
  }

  /** The first own gate at or after `g`, or the readiness lock when there is none. */
  function ClaimFrom(p: Protocol, g: nat): Pos
    requires p.work != []
  {
    if g <= p.Gates() then Claim(g) else Announce
  }

  function Start(p: Protocol, s: Session): Pos
    requires p.work != []
  {
    ClaimFrom(p, if s == T1 then 1 else 2)
  }

  /** The statement after this one; for `Try`, the one after the loop. */
  function Succ(p: Protocol, s: Session, pos: Pos): (r: Pos)
    requires p.work != [] && ValidPos(p, s, pos)
    ensures ValidPos(p, s, r)
  {
    match pos
    case Claim(g) => ClaimFrom(p, g + 2)
    case Announce => Try
    case Try => Begin
    case Undo => Try
    case Begin => if s == T1 then Work(0, 0) else Wait(1)
    case Wait(g) => if g <= p.Gates() then Pass(g) else Gone
    case Pass(g) => Work(g, 0)
    case Work(k, i) =>
      if i < |p.work[k]| then Work(k, i + 1)
      else if k < p.Gates() then Wait(k + 2)
      else Gone
    case Gone => Gone
  }

  // ---------------------------------------------------------------- steps and runs

  /** One executed statement and, for a query, what it returned. */
  datatype Entry = Entry(op: Op, result: seq<int>)

  datatype State = State(pos1: Pos, pos2: Pos, locks: Locks, db: Db, log: seq<Entry>) {
    function Pos(s: Session): Pos {
      if s == T1 then pos1 else pos2
    }

    function At(s: Session, pos: Pos): State {
      if s == T1 then this.(pos1 := pos) else this.(pos2 := pos)
    }
  }

  predicate ValidState(p: Protocol, st: State)
    requires p.work != []
  {
    ValidPos(p, T1, st.pos1) && ValidPos(p, T2, st.pos2)
  }

  /**
   `Run(s)`: session s executes its next statement.  `Snapshot`: T2, inside its
   transaction, happens to fix its snapshot now rather than at its first read.
   */
  datatype Event = Run(s: Session) | Snapshot

  predicate InTransaction(pos: Pos) {
    pos.Wait? || pos.Pass? || pos.Work?
  }

  predicate Enabled(p: Protocol, st: State, e: Event)
    requires p.work != [] && ValidState(p, st)
  {
    match e
    case Snapshot => InTransaction(st.pos2) && st.db.snapshot.None?
    case Run(s) =>
      && !st.Pos(s).Gone?
      && var stmt := StmtAt(p, s, st.Pos(s));
         stmt.Lock? ==> Available(st.locks, s, stmt.id)
  }

  function Next(p: Protocol, st: State, e: Event): (r: State)
    requires p.work != [] && ValidState(p, st) && Enabled(p, st, e)
    ensures ValidState(p, r)
  {
    match e
    case Snapshot => st.(db := Fix(st.db))
    case Run(s) =>
      var after := st.At(s, Succ(p, s, st.Pos(s)));
      match StmtAt(p, s, st.Pos(s))
      case Lock(k) => after.(locks := Acquire(st.locks, s, k))
      case Unlock(k) => after.(locks := Release(st.locks, s, k))
      case Poll(k) =>
        if Available(st.locks, s, k)
        then st.At(s, Undo).(locks := Acquire(st.locks, s, k))
        else after
      case BeginTxn => after
      case Do(op) =>
        after.(db := Execute(st.db, op),
               log := st.log + [Entry(op, if op.Select? then Read(st.db, op.who) else [])])
      case Quit => after.(locks := ReleaseAll(st.locks, s))
  }

  /** The rows of a table that was filled and committed beforehand. */
  function Load(table: seq<int>): seq<Row> {
    seq(|table|, i requires 0 <= i < |table| => Row(table[i], Initial))
  }

  function Init(p: Protocol, table: seq<int>): (r: State)
    requires p.work != []
    ensures ValidState(p, r)
  {
    State(Start(p, T1), Start(p, T2), map[],
          Db(Load(table), {Initial}, None), [])
  }

  /** The events of `es` can happen one after the other from `st`. */
  predicate Runs(p: Protocol, st: State, es: seq<Event>)
    requires p.work != [] && ValidState(p, st)
    decreases |es|
  {
    es == [] || (Enabled(p, st, es[0]) && Runs(p, Next(p, st, es[0]), es[1..]))
  }

  function After(p: Protocol, st: State, es: seq<Event>): (r: State)
    requires p.work != [] && ValidState(p, st) && Runs(p, st, es)
    ensures ValidState(p, r)
    decreases |es|
  {
    if es == [] then st else After(p, Next(p, st, es[0]), es[1..])
  }

  predicate Finished(st: State) {
    st.pos1.Gone? && st.pos2.Gone?
  }

  // ---------------------------------------------------------------- who holds what, and when

  /** Has left the polling loop. */
  predicate PastPoll(pos: Pos) {
    pos.Begin? || pos.Wait? || pos.Pass? || pos.Work? || pos.Gone?
  }

  /** Still has to lock its readiness lock. */
  predicate Arriving(pos: Pos) {
    pos.Claim? || pos.Announce?
  }

  /** The number of gates a session has put behind it, by opening or by passing them. */
  function Phase(p: Protocol, pos: Pos): nat
    requires p.work != []
  {
    match pos
    case Wait(g) => if g > 0 then g - 1 else 0
    case Pass(g) => g
    case Work(k, _) => k
    case Gone => p.Gates()
    case _ => 0
  }

  /** The locks a session holds are determined by where it stands. */
  predicate Holds(p: Protocol, s: Session, pos: Pos, k: nat)
    requires p.work != []
  {
    if 1 <= k <= p.Gates() then
      if Turn(k - 1) == s then
        match pos
        case Claim(g) => k < g
        case Gone => false
        case _ => k > Phase(p, pos)
      else pos == Pass(k)
    else if k == p.Ready(s) then !Arriving(pos) && !pos.Gone?
    else k == p.Ready(Other(s)) && pos.Undo?
  }

  ghost predicate LocksInv(p: Protocol, st: State)
    requires p.work != []
  {
    && (forall s: Session, k: nat :: Owns(st.locks, s, k) <==> Holds(p, s, st.Pos(s), k))
    && (forall k :: k in st.locks ==> st.locks[k].depth == 1)
  }

  /** No session gets past a gate before the session that holds it opened it. */
  predicate InStep(p: Protocol, s: Session, pos: Pos, other: Pos)
    requires p.work != []
  {
    && (PastPoll(pos) ==> !Arriving(other))
    && var g := Phase(p, pos);
       g > 0 ==> Phase(p, other) >= if Turn(g - 1) == s then g - 1 else g
  }

  ghost predicate OrderInv(p: Protocol, st: State)
    requires p.work != []
  {
    InStep(p, T1, st.pos1, st.pos2) && InStep(p, T2, st.pos2, st.pos1)
  }

  /** The statements of the first `k` segments, in order. */
  function Prefix(p: Protocol, k: nat): seq<Op>
    requires k <= |p.work|
  {
    if k == 0 then [] else Prefix(p, k - 1) + p.work[k - 1]
  }

  function Script(p: Protocol): seq<Op> {
    Prefix(p, |p.work|)
  }

  /** How much of the whole script is known to be done when a session stands here. */
  function Mark(p: Protocol, s: Session, pos: Pos): nat
    requires p.work != [] && ValidPos(p, s, pos)
  {
    match pos
    case Work(k, i) => |Prefix(p, k)| + i
    case Gone => if s == Turn(p.Gates()) then |Script(p)| else |Prefix(p, p.Gates())|
    case _ => |Prefix(p, Phase(p, pos))|
  }

  function Max(a: nat, b: nat): nat {
    if a < b then b else a
  }

  ghost predicate LogInv(p: Protocol, st: State)
    requires p.work != [] && ValidState(p, st)
  {
    && |st.log| == Max(Mark(p, T1, st.pos1), Mark(p, T2, st.pos2))
    && |st.log| <= |Script(p)|
    && forall j :: 0 <= j < |st.log| ==> st.log[j].op == Script(p)[j]
  }

  ghost predicate Inv(p: Protocol, st: State)
    requires p.work != []
  {
    ValidState(p, st) && LocksInv(p, st) && OrderInv(p, st) && LogInv(p, st)
  }
}
