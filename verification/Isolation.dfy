/**
 The transaction isolation scenario: the two scripts with five gates, a READ
 COMMITTED session that inserts 5 and a REPEATABLE READ session that inserts 4.
 */
module Isolation {
  import opened Sorting
  import opened Handshake
  import opened HandshakeSafety
  import opened HandshakeProgress

  /** Steps 8 to 15, cut where the scripts hand over. */
  function FiveGates(): (p: Protocol)
    ensures p.Valid() && p.Gates() == 5
  {
    Protocol([
      [Select(T1, 8)],
      [Insert(T2, 9, 4)],
      [Select(T1, 10), Insert(T1, 11, 5)],
      [Select(T2, 12)],
      [Commit(T1, 13)],
      [Select(T2, 14), Commit(T2, 15)]])
  }

  /** The eight observable steps, in the order the scenario is meant to have. */
  function Step(j: nat): Op
    requires j < 8
  {
    match j
    case 0 => Select(T1, 8)
    case 1 => Insert(T2, 9, 4)
    case 2 => Select(T1, 10)
    case 3 => Insert(T1, 11, 5)
    case 4 => Select(T2, 12)
    case 5 => Commit(T1, 13)
    case 6 => Select(T2, 14)
    case 7 => Commit(T2, 15)
  }

  // ---------------------------------------------------------------- the scripts themselves

  datatype Listing = End | Line(stmt: Stmt, rest: Listing)

  /** A session's script from `pos` on, the polling loop as one statement. */
  function ListingFrom(p: Protocol, s: Session, pos: Pos): Listing
    requires p.work != [] && ValidPos(p, s, pos)
    decreases Left(p, s, pos)
  {
    if pos.Gone? then End
    else
      LeftStep(p, s, pos);
      Line(StmtAt(p, s, pos), ListingFrom(p, s, Succ(p, s, pos)))
  }

  lemma T1Setup()
    ensures ListingFrom(FiveGates(), T1, Claim(1)) ==
      Line(Lock(1), Line(Lock(3), Line(Lock(5), Line(Lock(6),
      Line(Poll(7), Line(BeginTxn, ListingFrom(FiveGates(), T1, Work(0, 0))))))))
  {
  }

  lemma T1FirstGates()
    ensures ListingFrom(FiveGates(), T1, Work(0, 0)) ==
      Line(Do(Select(T1, 8)), Line(Unlock(1), Line(Lock(2), Line(Unlock(2), ListingFrom(FiveGates(), T1, Work(2, 0))))))
  {
  }

  lemma T1FirstHalf()
    ensures ListingFrom(FiveGates(), T1, Work(0, 0)) ==
      Line(Do(Select(T1, 8)), Line(Unlock(1), Line(Lock(2), Line(Unlock(2),
      Line(Do(Select(T1, 10)), Line(Do(Insert(T1, 11, 5)), ListingFrom(FiveGates(), T1, Work(2, 2))))))))
  {
    T1FirstGates();
  }

  lemma T1SecondHalf()
    ensures ListingFrom(FiveGates(), T1, Work(2, 2)) ==
      Line(Unlock(3), Line(Lock(4), Line(Unlock(4),
      Line(Do(Commit(T1, 13)), Line(Unlock(5), Line(Quit, End))))))
  {
  }

  /** The positions of the five-gate protocol, read off one after the other, are T1's script. */
  lemma ScriptOfT1()
    ensures ListingFrom(FiveGates(), T1, Start(FiveGates(), T1)) ==
      Line(Lock(1), Line(Lock(3), Line(Lock(5), Line(Lock(6),
      Line(Poll(7), Line(BeginTxn,
      Line(Do(Select(T1, 8)), Line(Unlock(1), Line(Lock(2), Line(Unlock(2),
      Line(Do(Select(T1, 10)), Line(Do(Insert(T1, 11, 5)), Line(Unlock(3), Line(Lock(4), Line(Unlock(4),
      Line(Do(Commit(T1, 13)), Line(Unlock(5), Line(Quit, End))))))))))))))))))
  {
    T1Setup();
    T1FirstHalf();
    T1SecondHalf();
  }

  lemma T2Setup()
    ensures ListingFrom(FiveGates(), T2, Claim(2)) ==
      Line(Lock(2), Line(Lock(4), Line(Lock(7),
      Line(Poll(6), Line(BeginTxn, Line(Lock(1), Line(Unlock(1), ListingFrom(FiveGates(), T2, Work(1, 0)))))))))
  {
  }

  lemma T2FirstHalf()
    ensures ListingFrom(FiveGates(), T2, Work(1, 0)) ==
      Line(Do(Insert(T2, 9, 4)), Line(Unlock(2), Line(Lock(3), Line(Unlock(3),
      Line(Do(Select(T2, 12)), ListingFrom(FiveGates(), T2, Work(3, 1)))))))
  {
  }

  lemma T2SecondHalf()
    ensures ListingFrom(FiveGates(), T2, Work(3, 1)) ==
      Line(Unlock(4), Line(Lock(5), Line(Unlock(5),
      Line(Do(Select(T2, 14)), Line(Do(Commit(T2, 15)), Line(Quit, End))))))
  {
  }

  /** And T2's. */
  lemma ScriptOfT2()
    ensures ListingFrom(FiveGates(), T2, Start(FiveGates(), T2)) ==
      Line(Lock(2), Line(Lock(4), Line(Lock(7),
      Line(Poll(6), Line(BeginTxn,
      Line(Lock(1), Line(Unlock(1),
      Line(Do(Insert(T2, 9, 4)), Line(Unlock(2), Line(Lock(3), Line(Unlock(3),
      Line(Do(Select(T2, 12)), Line(Unlock(4), Line(Lock(5), Line(Unlock(5),
      Line(Do(Select(T2, 14)), Line(Do(Commit(T2, 15)), Line(Quit, End))))))))))))))))))
  {
    T2Setup();
    T2FirstHalf();
    T2SecondHalf();
  }

  function Lines(l: Listing): nat {
    match l
    case End => 0
    case Line(_, rest) => 1 + Lines(rest)
  }

  /** What is left is what is still to be read off. */
  lemma {:induction false} LeftIsLines(p: Protocol, s: Session, pos: Pos)
    requires p.work != [] && ValidPos(p, s, pos)
    ensures Left(p, s, pos) == Lines(ListingFrom(p, s, pos))
    decreases Left(p, s, pos)
  {
    if !pos.Gone? {
      LeftStep(p, s, pos);
      LeftIsLines(p, s, Succ(p, s, pos));
    }
  }

  /** Each script has 18 statements, so a complete run has 36 and two for each poll in vain. */
  lemma {:induction false} ThirtySixStatements(table: seq<int>, es: seq<Event>)
    requires var p := FiveGates(); Runs(p, Init(p, table), es) && Finished(After(p, Init(p, table), es))
    ensures var p := FiveGates(); Statements(es) == 36 + 2 * Polls(p, Init(p, table), es)
    ensures var p := FiveGates(); |es| <= 37 + 2 * Polls(p, Init(p, table), es)
  {
    ScriptLengths();
    StatementsOfCompleteRun(FiveGates(), table, es);
    OnlyPollingIsLong(FiveGates(), table, es);
  }

  lemma ScriptLengths()
    ensures Left(FiveGates(), T1, Start(FiveGates(), T1)) == 18
    ensures Left(FiveGates(), T2, Start(FiveGates(), T2)) == 18
  {
    var p := FiveGates();
    assert LeftAtSegment(p, 5) == 3 && LeftAtSegment(p, 4) == 3;
    assert LeftAtSegment(p, 3) == 2 + LeftAtGate(p, 5) == 7;
    assert LeftAtSegment(p, 2) == 3 + LeftAtGate(p, 4) == 8;
    assert LeftAtSegment(p, 1) == 2 + LeftAtGate(p, 3) == 11;
    assert LeftAtSegment(p, 0) == 2 + LeftAtGate(p, 2) == 12;
  }

  /** The two scripts, put in turn, are the eight steps. */
  ghost predicate Scenario(p: Protocol) {
    && p.Valid()
    && |Script(p)| == 8
    && forall j :: 0 <= j < 8 ==> Script(p)[j] == Step(j)
  }

  lemma FiveGatesIsScenario()
    ensures Scenario(FiveGates())
  {
    var p := FiveGates();
    assert Prefix(p, 2) == [Step(0), Step(1)];
    assert Prefix(p, 4) == Prefix(p, 2) + [Step(2), Step(3), Step(4)];
    assert Prefix(p, 6) == Prefix(p, 4) + [Step(5), Step(6), Step(7)];
  }

  /** Steps 8, 9, ..., 15 happen in this order in every interleaving. */
  lemma {:induction false} StepsInOrder(p: Protocol, table: seq<int>, es: seq<Event>)
    requires Scenario(p) && Runs(p, Init(p, table), es)
    ensures
      var log := After(p, Init(p, table), es).log;
      && |log| <= 8
      && forall j :: 0 <= j < |log| ==> log[j].op == Step(j) && log[j].op.step == 8 + j
  {
    ExecutedInOrder(p, table, es);
  }

  // ---------------------------------------------------------------- what is visible

  lemma {:induction false} VisibleAppend(rows: seq<Row>, r: Row, seen: set<Txn>)
    ensures Visible(rows + [r], seen) == Visible(rows, seen) + if r.writer in seen then [r.val] else []
  {
    if rows != [] {
      assert (rows + [r])[1..] == rows[1..] + [r];
      VisibleAppend(rows[1..], r, seen);
    } else {
      assert (rows + [r])[1..] == [];
    }
  }

  lemma {:induction false} VisibleLoad(table: seq<int>, seen: set<Txn>)
    requires Initial in seen
    ensures Visible(Load(table), seen) == table
  {
    if table != [] {
      assert Load(table)[1..] == Load(table[1..]);
      VisibleLoad(table[1..], seen);
    }
  }

  /** The rows, and the committed transactions, after the first `j` steps. */
  function RowsAfter(table: seq<int>, j: nat): seq<Row> {
    if j < 2 then Load(table)
    else if j < 4 then Load(table) + [Row(4, Of(T2))]
    else Load(table) + [Row(4, Of(T2))] + [Row(5, Of(T1))]
  }

  function CommittedAfter(j: nat): set<Txn> {
    {Initial} + (if j < 6 then {} else {Of(T1)}) + if j < 8 then {} else {Of(T2)}
  }

  /** What a query at index `j` is meant to see: T1 never sees 4, T2 never sees 5. */
  function View(table: seq<int>, j: nat): seq<int> {
    if j < 4 then table else table + [4]
  }

  function Expected(table: seq<int>, j: nat): seq<int>
    requires j < 8
  {
    if Step(j).Select? then OrderBy(View(table, j)) else []
  }

  ghost predicate LogOk(table: seq<int>, log: seq<Entry>) {
    && |log| <= 8
    && forall j :: 0 <= j < |log| ==> log[j].op == Step(j) && log[j].result == Expected(table, j)
  }

  /** The table after `j` steps; T2's snapshot, once fixed, has only the initial rows. */
  ghost predicate DbOk(table: seq<int>, db: Db, j: nat) {
    && db.rows == RowsAfter(table, j)
    && db.committed == CommittedAfter(j)
    && (if db.snapshot.None? then j <= 4 else db.snapshot.value == {Initial})
  }

  ghost predicate DbInv(table: seq<int>, db: Db, log: seq<Entry>) {
    LogOk(table, log) && DbOk(table, db, |log|)
  }

  lemma VisibleAfter(table: seq<int>, j: nat, seen: set<Txn>)
    requires Initial in seen
    ensures j < 4 && Of(T2) !in seen ==> Visible(RowsAfter(table, j), seen) == table
    ensures j >= 4 && Of(T2) in seen && Of(T1) !in seen ==> Visible(RowsAfter(table, j), seen) == table + [4]
    ensures j >= 4 && Of(T2) in seen && Of(T1) in seen ==> Visible(RowsAfter(table, j), seen) == table + [4] + [5]
  {
    VisibleLoad(table, seen);
    VisibleAppend(Load(table), Row(4, Of(T2)), seen);
    VisibleAppend(Load(table) + [Row(4, Of(T2))], Row(5, Of(T1)), seen);
  }

  /** A query by T1 before step 11, or by T2 afterwards. */
  lemma SeenAt(table: seq<int>, db: Db, j: nat)
    requires j < 8 && DbOk(table, db, j) && Step(j).Select?
    ensures Step(j).who == if j < 4 then T1 else T2
    ensures Seen(db, Step(j).who) == {Of(Step(j).who), Initial}
  {
  }

  lemma VisibleIsView(table: seq<int>, db: Db, j: nat)
    requires j < 8 && DbOk(table, db, j) && Step(j).Select?
    ensures Visible(db.rows, Seen(db, Step(j).who)) == View(table, j)
  {
    SeenAt(table, db, j);
    VisibleAfter(table, j, {Of(Step(j).who), Initial});
  }

  lemma ReadIsExpected(table: seq<int>, db: Db, j: nat)
    requires j < 8 && DbOk(table, db, j) && Step(j).Select?
    ensures Read(db, Step(j).who) == Expected(table, j)
  {
    VisibleIsView(table, db, j);
  }

  lemma ExecuteOk(table: seq<int>, db: Db, j: nat)
    requires j < 8 && DbOk(table, db, j)
    ensures DbOk(table, Execute(db, Step(j)), j + 1)
  {
  }

  lemma LogOkAppend(table: seq<int>, log: seq<Entry>, entry: Entry)
    requires LogOk(table, log) && |log| < 8
    requires entry.op == Step(|log|) && entry.result == Expected(table, |log|)
    ensures LogOk(table, log + [entry])
  {
  }

  lemma ResultIsExpected(table: seq<int>, db: Db, j: nat)
    requires j < 8 && DbOk(table, db, j)
    ensures Expected(table, j) == if Step(j).Select? then Read(db, Step(j).who) else []
  {
    if Step(j).Select? {
      ReadIsExpected(table, db, j);
    }
  }

  /** Executing step number |log| of the scenario. */
  lemma ExecuteInv(table: seq<int>, db: Db, log: seq<Entry>, entry: Entry)
    requires DbInv(table, db, log) && |log| < 8
    requires entry.op == Step(|log|)
    requires entry.result == if entry.op.Select? then Read(db, entry.op.who) else []
    ensures DbInv(table, Execute(db, entry.op), log + [entry])
  {
    ExecuteOk(table, db, |log|);
    ResultIsExpected(table, db, |log|);
    LogOkAppend(table, log, entry);
  }

  /** What an event does to the table and the log. */
  lemma NextDb(p: Protocol, st: State, e: Event)
    requires p.work != [] && ValidState(p, st) && Enabled(p, st, e)
    ensures
      var r := Next(p, st, e);
      || (r.log == st.log && (r.db == st.db || r.db == Fix(st.db)))
      || (exists entry ::
            && r.log == st.log + [entry] && r.db == Execute(st.db, entry.op)
            && entry.result == if entry.op.Select? then Read(st.db, entry.op.who) else [])
  {
    var r := Next(p, st, e);
    if e.Run? && StmtAt(p, e.s, st.Pos(e.s)).Do? {
      assert r.log == st.log + [r.log[|st.log|]];
    }
  }

  lemma DbStep(p: Protocol, table: seq<int>, st: State, e: Event)
    requires Scenario(p) && Inv(p, st) && Enabled(p, st, e)
    requires DbInv(table, st.db, st.log)
    ensures var r := Next(p, st, e); DbInv(table, r.db, r.log)
  {
    StepInv(p, st, e);
    NextDb(p, st, e);
    var r := Next(p, st, e);
    if r.log != st.log {
      assert r.log[|st.log|].op == Step(|st.log|);
      ExecuteInv(table, st.db, st.log, r.log[|st.log|]);
    }
  }

  lemma {:induction false} DbRun(p: Protocol, table: seq<int>, st: State, es: seq<Event>)
    requires Scenario(p) && Inv(p, st) && Runs(p, st, es) && DbInv(table, st.db, st.log)
    ensures var r := After(p, st, es); DbInv(table, r.db, r.log)
    decreases |es|
  {
    if es != [] {
      DbStep(p, table, st, es[0]);
      StepInv(p, st, es[0]);
      DbRun(p, table, Next(p, st, es[0]), es[1..]);
    }
  }

  lemma EntryIs(table: seq<int>, log: seq<Entry>, j: nat)
    requires LogOk(table, log) && j < |log|
    ensures j == 0 || j == 2 ==> log[j] == Entry(Select(T1, 8 + j), OrderBy(table))
    ensures j == 4 || j == 6 ==> log[j] == Entry(Select(T2, 8 + j), OrderBy(table + [4]))
  {
    assert log[j] == Entry(Step(j), Expected(table, j));
  }

  /**
   For every initial table, in every interleaving, and wherever T2's snapshot
   is fixed between its BEGIN and its first read: T1 reads exactly the initial
   rows, before and after T2's insert, and T2 reads the initial rows and its own
   insert, before and after T1's commit.
   */
  lemma {:induction false} ReadsAreIsolated(p: Protocol, table: seq<int>, es: seq<Event>)
    requires Scenario(p) && Runs(p, Init(p, table), es)
    ensures
      var log := After(p, Init(p, table), es).log;
      && |log| <= 8
      && forall j :: 0 <= j < |log| ==>
           && (j == 0 || j == 2 ==> log[j] == Entry(Select(T1, 8 + j), OrderBy(table)))
           && (j == 4 || j == 6 ==> log[j] == Entry(Select(T2, 8 + j), OrderBy(table + [4])))
  {
    InitInv(p, table);
    DbRun(p, table, Init(p, table), es);
    var log := After(p, Init(p, table), es).log;
    forall j | 0 <= j < |log| {
      EntryIs(table, log, j);
    }
  }

  /** After both sessions have ended, a new query sees the initial rows and both inserts. */
  lemma {:induction false} BothInsertsSurvive(p: Protocol, table: seq<int>, es: seq<Event>)
    requires Scenario(p) && Runs(p, Init(p, table), es)
    requires Finished(After(p, Init(p, table), es))
    ensures
      var db := After(p, Init(p, table), es).db;
      Visible(db.rows, db.committed) == table + [4] + [5]
  {
    InitInv(p, table);
    DbRun(p, table, Init(p, table), es);
    CompleteAtEnd(p, table, es);
    VisibleAfter(table, 8, CommittedAfter(8));
  }

  /** The table of the test: one row, 2.  The four queries return what the test asserts. */
  lemma {:induction false} TestAssertionsHold(p: Protocol, es: seq<Event>)
    requires Scenario(p) && Runs(p, Init(p, [2]), es)
    requires Finished(After(p, Init(p, [2]), es))
    ensures
      var log := After(p, Init(p, [2]), es).log;
      && |log| == 8
      && log[0] == Entry(Select(T1, 8), [2])
      && log[2] == Entry(Select(T1, 10), [2])
      && log[4] == Entry(Select(T2, 12), [2, 4])
      && log[6] == Entry(Select(T2, 14), [2, 4])
  {
    StepsInOrder(p, [2], es);
    ReadsAreIsolated(p, [2], es);
    CompleteAtEnd(p, [2], es);
    SortedUnique(OrderBy([2]), [2]);
    SortedUnique(OrderBy([2] + [4]), [2, 4]);
  }
}
