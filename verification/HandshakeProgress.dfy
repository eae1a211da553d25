/**
 Progress of the handshake: it never deadlocks, after polling it ends by
 itself, and from every reachable state it can be completed exactly when there
 are at least two gates.
 */
module HandshakeProgress {
  import opened Handshake
  import opened HandshakeSafety
  import opened Wrappers

  // ---------------------------------------------------------------- statements left

  /** The statements a session has left when it is about to wait for gate `g`. */
  function LeftAtGate(p: Protocol, g: nat): nat
    requires p.work != []
    decreases p.Gates() + 1 - g, 1
  {
    if g <= p.Gates() then 2 + LeftAtSegment(p, g) else 1
  }

  /** The same at the start of segment `k`. */
  function LeftAtSegment(p: Protocol, k: nat): nat
    requires p.work != [] && k <= p.Gates()
    decreases p.Gates() + 1 - k, 0
  {
    |p.work[k]| + 1 + if k < p.Gates() then LeftAtGate(p, k + 2) else 0
  }

  function LeftAtBegin(p: Protocol, s: Session): nat
    requires p.work != []
  {
    1 + if s == T1 then LeftAtSegment(p, 0) else LeftAtGate(p, 1)
  }

  /** The statements a session has left, counting one turn of the polling loop. */
  function Left(p: Protocol, s: Session, pos: Pos): nat
    requires p.work != [] && ValidPos(p, s, pos)
  {
    match pos
    case Claim(g) => LeftAtBegin(p, s) + 3 + (p.Gates() - g) / 2
    case Announce => LeftAtBegin(p, s) + 2
    case Undo => LeftAtBegin(p, s) + 2
    case Try => LeftAtBegin(p, s) + 1
    case Begin => LeftAtBegin(p, s)
    case Wait(g) => LeftAtGate(p, g)
    case Pass(g) => 1 + LeftAtSegment(p, g)
    case Work(k, i) => LeftAtSegment(p, k) - i
    case Gone => 0
  }

  function Total(p: Protocol, st: State): nat
    requires p.work != [] && ValidState(p, st)
  {
    Left(p, T1, st.pos1) + Left(p, T2, st.pos2)
  }

  lemma LeftStep(p: Protocol, s: Session, pos: Pos)
    requires p.work != [] && ValidPos(p, s, pos) && !pos.Gone?
    ensures Left(p, s, Succ(p, s, pos)) + 1 == Left(p, s, pos)
  {
  }

  // ---------------------------------------------------------------- some session can move

  /** Session `s` can execute a statement that brings it forward. */
  predicate Advances(p: Protocol, st: State, s: Session)
    requires p.work != [] && ValidState(p, st)
  {
    && Enabled(p, st, Run(s))
    && (st.Pos(s).Try? ==> !Available(st.locks, s, p.Ready(Other(s))))
  }

  lemma AdvanceDecreases(p: Protocol, st: State, s: Session)
    requires p.work != [] && ValidState(p, st) && Advances(p, st, s)
    ensures Total(p, Next(p, st, Run(s))) < Total(p, st)
  {
    LeftStep(p, s, st.Pos(s));
  }

  /** A session is held up in three places only; the other one then decides. */
  lemma HeldUp(p: Protocol, st: State, s: Session)
    requires p.work != [] && ValidState(p, st) && LocksInv(p, st) && OrderInv(p, st)
    requires !st.Pos(s).Gone? && !Advances(p, st, s)
    ensures
      var pos, o := st.Pos(s), st.Pos(Other(s));
      || (pos.Announce? && o.Undo?)
      || (pos.Try? && (Arriving(o) || o.Gone?))
      || (pos.Wait? && pos.gate <= p.Gates() && !Arriving(o) && !o.Gone? && Phase(p, o) < pos.gate)
  {
    var pos := st.Pos(s);
    var stmt := StmtAt(p, s, pos);
    if stmt.Lock? || stmt.Poll? {
      HolderOf(p, st, s, stmt.id);
    }
  }

  /**
   In every reachable state a session can go on unless it is about to announce
   itself while the other has its readiness lock from a poll, or it is at a gate
   the other has yet to open.
   */
  lemma {:induction false} WaitsIff(p: Protocol, table: seq<int>, es: seq<Event>, s: Session)
    requires p.Valid() && Runs(p, Init(p, table), es) && !After(p, Init(p, table), es).Pos(s).Gone?
    ensures
      var st := After(p, Init(p, table), es);
      var pos, o := st.Pos(s), st.Pos(Other(s));
      Enabled(p, st, Run(s)) <==>
        && !(pos.Announce? && o.Undo?)
        && !(pos.Wait? && pos.gate <= p.Gates() && !o.Gone? && Phase(p, o) < pos.gate)
  {
    InitInv(p, table);
    RunInv(p, Init(p, table), es);
    Blocked(p, After(p, Init(p, table), es), s);
  }

  lemma Blocked(p: Protocol, st: State, s: Session)
    requires p.work != [] && ValidState(p, st) && LocksInv(p, st) && OrderInv(p, st) && !st.Pos(s).Gone?
    ensures
      var pos, o := st.Pos(s), st.Pos(Other(s));
      !Enabled(p, st, Run(s)) <==>
        || (pos.Announce? && o.Undo?)
        || (pos.Wait? && pos.gate <= p.Gates() && !o.Gone? && Phase(p, o) < pos.gate)
  {
    var stmt := StmtAt(p, s, st.Pos(s));
    if stmt.Lock? {
      HolderOf(p, st, s, stmt.id);
    }
  }

  /** The two sessions are never held up by each other. */
  lemma NotBothHeldUp(p: Protocol, st: State, s: Session)
    requires p.work != [] && ValidState(p, st) && LocksInv(p, st) && OrderInv(p, st)
    requires !st.Pos(s).Gone? && !Advances(p, st, s)
    requires !st.Pos(Other(s)).Gone?
    ensures Advances(p, st, Other(s))
  {
    HeldUp(p, st, s);
    if !Advances(p, st, Other(s)) {
      HeldUp(p, st, Other(s));
    }
  }

  /** With two gates or more nobody is left behind in the polling loop. */
  lemma NobodyLeftPolling(p: Protocol, st: State, s: Session)
    requires p.work != [] && ValidState(p, st) && LocksInv(p, st) && OrderInv(p, st)
    requires st.Pos(Other(s)).Gone? && !st.Pos(s).Gone?
    requires p.Gates() >= 2 || PastPoll(st.Pos(s))
    ensures Advances(p, st, s)
  {
    assert InStep(p, Other(s), st.Pos(Other(s)), st.Pos(s));
    if !Advances(p, st, s) {
      HeldUp(p, st, s);
    }
  }

  /** Unless both are done, some session can be brought forward. */
  lemma SomeAdvance(p: Protocol, st: State) returns (s: Session)
    requires p.work != [] && ValidState(p, st) && LocksInv(p, st) && OrderInv(p, st)
    requires !Finished(st)
    requires p.Gates() >= 2 || (PastPoll(st.pos1) && PastPoll(st.pos2))
    ensures Advances(p, st, s)
  {
    s := if st.pos1.Gone? then T2 else T1;
    if !Advances(p, st, s) {
      if st.Pos(Other(s)).Gone? {
        NobodyLeftPolling(p, st, s);
      } else {
        NotBothHeldUp(p, st, s);
        s := Other(s);
      }
    }
  }

  // ---------------------------------------------------------------- completion

  ghost predicate CanFinish(p: Protocol, st: State)
    requires p.work != [] && ValidState(p, st)
  {
    exists es :: Runs(p, st, es) && Finished(After(p, st, es))
  }

  ghost predicate AlwaysCanFinish(p: Protocol, st: State)
    requires p.work != [] && ValidState(p, st)
  {
    forall es :: Runs(p, st, es) ==> CanFinish(p, After(p, st, es))
  }

  lemma CanFinishAfter(p: Protocol, st: State, e: Event)
    requires p.work != [] && ValidState(p, st) && Enabled(p, st, e)
    requires CanFinish(p, Next(p, st, e))
    ensures CanFinish(p, st)
  {
    var es :| Runs(p, Next(p, st, e), es) && Finished(After(p, Next(p, st, e), es));
    assert ([e] + es)[1..] == es;
    assert Runs(p, st, [e] + es);
  }

  lemma {:induction false} InvCanFinish(p: Protocol, st: State)
    requires p.Valid() && Inv(p, st) && p.Gates() >= 2
    ensures CanFinish(p, st)
    decreases Total(p, st)
  {
    if Finished(st) {
      assert Runs(p, st, []);
    } else {
      var s := SomeAdvance(p, st);
      StepInv(p, st, Run(s));
      AdvanceDecreases(p, st, s);
      InvCanFinish(p, Next(p, st, Run(s)));
      CanFinishAfter(p, st, Run(s));
    }
  }

  /** No deadlock: with two gates or more, every reachable state can be run to completion. */
  lemma {:induction false} NeverDeadlocks(p: Protocol, table: seq<int>, es: seq<Event>)
    requires p.Valid() && p.Gates() >= 2 && Runs(p, Init(p, table), es)
    ensures CanFinish(p, After(p, Init(p, table), es))
  {
    InitInv(p, table);
    RunInv(p, Init(p, table), es);
    InvCanFinish(p, After(p, Init(p, table), es));
  }

  // ---------------------------------------------------------------- polling

  /** A session polls in vain only until the other one has announced itself. */
  lemma {:induction false} PollEndsOnceAnnounced(p: Protocol, table: seq<int>, es: seq<Event>, s: Session)
    requires p.Valid() && p.Gates() >= 2 && Runs(p, Init(p, table), es)
    requires After(p, Init(p, table), es).Pos(s).Try?
    ensures
      var st := After(p, Init(p, table), es);
      Next(p, st, Run(s)).Pos(s).Begin? <==> !Arriving(st.Pos(Other(s)))
  {
    InitInv(p, table);
    RunInv(p, Init(p, table), es);
    var st := After(p, Init(p, table), es);
    HolderOf(p, st, s, p.Ready(Other(s)));
    if st.Pos(Other(s)).Gone? {
      NobodyLeftPolling(p, st, s);
    }
  }

  // ---------------------------------------------------------------- how long a run can be

  predicate BothPastPoll(st: State) {
    PastPoll(st.pos1) && PastPoll(st.pos2)
  }

  /** What is left to happen: statements, and T2's snapshot if it is still open. */
  function Budget(p: Protocol, st: State): nat
    requires p.work != [] && ValidState(p, st)
  {
    Total(p, st) + if st.db.snapshot.None? then 1 else 0
  }

  /** The event is a poll that finds the other's readiness lock free. */
  predicate InVain(p: Protocol, st: State, e: Event)
    requires p.work != [] && ValidState(p, st)
  {
    e.Run? && st.Pos(e.s).Try? && Available(st.locks, e.s, p.Ready(Other(e.s)))
  }

  /** The polls of the run that were in vain. */
  function Polls(p: Protocol, st: State, es: seq<Event>): nat
    requires p.work != [] && ValidState(p, st) && Runs(p, st, es)
    decreases |es|
  {
    if es == [] then 0
    else (if InVain(p, st, es[0]) then 1 else 0) + Polls(p, Next(p, st, es[0]), es[1..])
  }

  lemma BudgetStep(p: Protocol, st: State, e: Event)
    requires p.work != [] && ValidState(p, st) && Enabled(p, st, e)
    ensures 1 + Budget(p, Next(p, st, e)) <= Budget(p, st) + if InVain(p, st, e) then 2 else 0
  {
    if e.Run? {
      TotalStep(p, st, e.s);
      if st.db.snapshot.Some? {
        SnapshotStays(p, st, e.s);
      }
    }
  }

  lemma TotalStep(p: Protocol, st: State, s: Session)
    requires p.work != [] && ValidState(p, st) && Enabled(p, st, Run(s))
    ensures 1 + Total(p, Next(p, st, Run(s))) == Total(p, st) + if InVain(p, st, Run(s)) then 2 else 0
  {
    PosStep(p, st, s);
    LeftStep(p, s, st.Pos(s));
  }

  /** A session moves to its next statement, or into the polling loop; the other stays. */
  lemma PosStep(p: Protocol, st: State, s: Session)
    requires p.work != [] && ValidState(p, st) && Enabled(p, st, Run(s))
    ensures
      var r := Next(p, st, Run(s));
      && r.Pos(Other(s)) == st.Pos(Other(s))
      && r.Pos(s) == if InVain(p, st, Run(s)) then Undo else Succ(p, s, st.Pos(s))
  {
  }

  lemma SnapshotStays(p: Protocol, st: State, s: Session)
    requires p.work != [] && ValidState(p, st) && Enabled(p, st, Run(s)) && st.db.snapshot.Some?
    ensures Next(p, st, Run(s)).db.snapshot.Some?
  {
  }

  lemma {:induction false} BudgetRun(p: Protocol, st: State, es: seq<Event>)
    requires p.work != [] && ValidState(p, st) && Runs(p, st, es)
    ensures |es| + Budget(p, After(p, st, es)) <= Budget(p, st) + 2 * Polls(p, st, es)
    decreases |es|
  {
    if es != [] {
      BudgetStep(p, st, es[0]);
      BudgetRun(p, Next(p, st, es[0]), es[1..]);
    }
  }

  /** The statements executed in a run. */
  function Statements(es: seq<Event>): nat {
    if es == [] then 0 else (if es[0].Run? then 1 else 0) + Statements(es[1..])
  }

  lemma {:induction false} StatementsRun(p: Protocol, st: State, es: seq<Event>)
    requires p.work != [] && ValidState(p, st) && Runs(p, st, es)
    ensures Statements(es) + Total(p, After(p, st, es)) == Total(p, st) + 2 * Polls(p, st, es)
    decreases |es|
  {
    if es != [] {
      if es[0].Run? {
        TotalStep(p, st, es[0].s);
      }
      StatementsRun(p, Next(p, st, es[0]), es[1..]);
    }
  }

  /** A complete run executes the statements of the two scripts, and two for each poll in vain. */
  lemma {:induction false} StatementsOfCompleteRun(p: Protocol, table: seq<int>, es: seq<Event>)
    requires p.Valid() && Runs(p, Init(p, table), es) && Finished(After(p, Init(p, table), es))
    ensures Statements(es) == Total(p, Init(p, table)) + 2 * Polls(p, Init(p, table), es)
  {
    StatementsRun(p, Init(p, table), es);
  }

  /** Only polling in vain can make a run long: two statements each time, beyond those of the scripts. */
  lemma {:induction false} OnlyPollingIsLong(p: Protocol, table: seq<int>, es: seq<Event>)
    requires p.Valid() && Runs(p, Init(p, table), es)
    ensures |es| <= Budget(p, Init(p, table)) + 2 * Polls(p, Init(p, table), es)
  {
    BudgetRun(p, Init(p, table), es);
  }

  lemma PastPollStep(p: Protocol, st: State, e: Event)
    requires p.work != [] && ValidState(p, st) && Enabled(p, st, e) && BothPastPoll(st)
    ensures BothPastPoll(Next(p, st, e)) && !InVain(p, st, e)
  {
  }

  /**
   Once both sessions have left their polling loops every schedule ends after
   at most the statements that are left, and it can only stop when both are done.
   */
  lemma {:induction false} EndsByItself(p: Protocol, st: State, es: seq<Event>)
    requires p.Valid() && Inv(p, st) && BothPastPoll(st) && Runs(p, st, es)
    ensures |es| <= Budget(p, st)
    ensures !Finished(After(p, st, es)) ==> exists s :: Enabled(p, After(p, st, es), Run(s))
    decreases |es|
  {
    if es == [] {
      if !Finished(st) {
        var s := SomeAdvance(p, st);
        assert Enabled(p, st, Run(s));
      }
    } else {
      BudgetStep(p, st, es[0]);
      PastPollStep(p, st, es[0]);
      StepInv(p, st, es[0]);
      EndsByItself(p, Next(p, st, es[0]), es[1..]);
    }
  }

  // ---------------------------------------------------------------- the snapshot

  /** T2 has begun its transaction; it may have ended it. */
  predicate HasBegun(pos: Pos) {
    pos.Wait? || pos.Pass? || pos.Work? || pos.Gone?
  }

  lemma {:induction false} SnapshotKept(p: Protocol, st: State, es: seq<Event>)
    requires p.Valid() && Inv(p, st) && Runs(p, st, es)
    requires st.db.snapshot.Some? ==> HasBegun(st.pos2)
    ensures
      var r := After(p, st, es);
      && (r.db.snapshot.Some? ==> HasBegun(r.pos2))
      && (st.db.snapshot.Some? ==> r.db.snapshot == st.db.snapshot)
    decreases |es|
  {
    if es != [] {
      SnapshotKeptOnce(p, st, es[0]);
      StepInv(p, st, es[0]);
      SnapshotKept(p, Next(p, st, es[0]), es[1..]);
    }
  }

  lemma SnapshotKeptOnce(p: Protocol, st: State, e: Event)
    requires p.Valid() && Inv(p, st) && Enabled(p, st, e)
    requires st.db.snapshot.Some? ==> HasBegun(st.pos2)
    ensures
      var r := Next(p, st, e);
      && (r.db.snapshot.Some? ==> HasBegun(r.pos2))
      && (st.db.snapshot.Some? ==> r.db.snapshot == st.db.snapshot)
  {
    if e.Run? {
      PosStep(p, st, e.s);
      if HasBegun(st.pos2) {
        BegunStays(p, st.pos2);
      }
      SnapshotBy(p, st, e.s);
    }
  }

  lemma BegunStays(p: Protocol, pos: Pos)
    requires p.work != [] && ValidPos(p, T2, pos) && HasBegun(pos)
    ensures HasBegun(Succ(p, T2, pos))
  {
  }

  /** A statement leaves the snapshot alone, unless it is T2's work. */
  lemma SnapshotBy(p: Protocol, st: State, s: Session)
    requires p.Valid() && ValidState(p, st) && Enabled(p, st, Run(s))
    ensures
      var r := Next(p, st, Run(s));
      && (st.db.snapshot.Some? ==> r.db.snapshot == st.db.snapshot)
      && (r.db.snapshot != st.db.snapshot ==> s == T2 && st.pos2.Work?)
  {
    var pos := st.Pos(s);
    if pos.Work? && pos.i < |p.work[pos.k]| {
      assert p.work[pos.k][pos.i].who == s;
    }
  }

  /**
   T2's snapshot can be fixed at any moment of its transaction at which it is
   not fixed yet, with what is committed then; the run can still be completed.
   */
  lemma {:induction false} SnapshotAnyTime(p: Protocol, table: seq<int>, es: seq<Event>)
    requires p.Valid() && Runs(p, Init(p, table), es)
    requires
      var st := After(p, Init(p, table), es);
      (st.pos2.Wait? || st.pos2.Pass? || st.pos2.Work?) && st.db.snapshot.None?
    ensures
      var st := After(p, Init(p, table), es);
      var fixed := st.(db := st.db.(snapshot := Some(st.db.committed)));
      && (exists more :: Runs(p, st, more) && After(p, st, more) == fixed)
      && (p.Gates() >= 2 ==> CanFinish(p, fixed))
  {
    InitInv(p, table);
    RunInv(p, Init(p, table), es);
    var st := After(p, Init(p, table), es);
    assert [Snapshot][1..] == [];
    assert Runs(p, st, [Snapshot]) && After(p, st, [Snapshot]) == Next(p, st, Snapshot);
    StepInv(p, st, Snapshot);
    if p.Gates() >= 2 {
      InvCanFinish(p, Next(p, st, Snapshot));
    }
  }

  /** Outside of the transaction there is no snapshot, and once fixed it never changes. */
  lemma {:induction false} SnapshotOnlyThen(p: Protocol, table: seq<int>, es: seq<Event>, more: seq<Event>)
    requires p.Valid() && Runs(p, Init(p, table), es) && Runs(p, After(p, Init(p, table), es), more)
    ensures
      var st := After(p, Init(p, table), es);
      st.db.snapshot.Some? ==>
        && (st.pos2.Wait? || st.pos2.Pass? || st.pos2.Work? || st.pos2.Gone?)
        && After(p, st, more).db.snapshot == st.db.snapshot
  {
    InitInv(p, table);
    RunInv(p, Init(p, table), es);
    SnapshotKept(p, Init(p, table), es);
    SnapshotKept(p, After(p, Init(p, table), es), more);
  }

  // ---------------------------------------------------------------- fewer than two gates

  /** T1 has left and T2 still polls for it. */
  predicate Abandoned(st: State) {
    st.pos1.Gone? && (st.pos2.Try? || st.pos2.Undo?)
  }

  lemma {:induction false} AbandonedForever(p: Protocol, st: State, es: seq<Event>)
    requires p.Valid() && Inv(p, st) && Abandoned(st) && Runs(p, st, es)
    ensures Abandoned(After(p, st, es))
    decreases |es|
  {
    if es != [] {
      HolderOf(p, st, T2, p.Ready(T1));
      StepInv(p, st, es[0]);
      AbandonedForever(p, Next(p, st, es[0]), es[1..]);
    }
  }

  /** With at most one gate T1 can run to its end while T2 still polls. */
  lemma {:induction false} T1RunsOut(p: Protocol, st: State) returns (es: seq<Event>)
    requires p.Valid() && Inv(p, st) && p.Gates() < 2
    requires PastPoll(st.pos1) && st.pos2.Try?
    ensures Runs(p, st, es) && Abandoned(After(p, st, es))
    decreases Left(p, T1, st.pos1)
  {
    if st.pos1.Gone? {
      es := [];
    } else {
      assert Enabled(p, st, Run(T1));
      StepInv(p, st, Run(T1));
      LeftStep(p, T1, st.pos1);
      var rest := T1RunsOut(p, Next(p, st, Run(T1)));
      es := [Run(T1)] + rest;
      assert es[1..] == rest;
    }
  }

  lemma {:induction false} T1LeavesFirst(p: Protocol, st: State) returns (es: seq<Event>)
    requires p.Valid() && Inv(p, st) && p.Gates() < 2
    requires (Arriving(st.pos1) && st.pos2.Announce?) || (st.pos1.Try? && (st.pos2.Announce? || st.pos2.Try?))
    ensures Runs(p, st, es) && Abandoned(After(p, st, es))
    decreases Total(p, st)
  {
    var s := if st.pos1.Try? && st.pos2.Announce? then T2 else T1;
    HolderOf(p, st, s, StmtAt(p, s, st.Pos(s)).id);
    assert Advances(p, st, s);
    StepInv(p, st, Run(s));
    AdvanceDecreases(p, st, s);
    var next := Next(p, st, Run(s));
    var rest: seq<Event>;
    if PastPoll(next.pos1) {
      rest := T1RunsOut(p, next);
    } else {
      rest := T1LeavesFirst(p, next);
    }
    es := [Run(s)] + rest;
    assert es[1..] == rest;
  }

  /** The exact condition: two gates are enough, and with fewer a run can go wrong for good. */
  lemma {:induction false} CompletesIffTwoGates(p: Protocol, table: seq<int>)
    requires p.Valid()
    ensures p.Gates() >= 2 <==> AlwaysCanFinish(p, Init(p, table))
  {
    var init := Init(p, table);
    InitInv(p, table);
    if p.Gates() >= 2 {
      forall es | Runs(p, init, es) ensures CanFinish(p, After(p, init, es)) {
        NeverDeadlocks(p, table, es);
      }
    } else {
      var es := T1LeavesFirst(p, init);
      RunInv(p, init, es);
      var st := After(p, init, es);
      if CanFinish(p, st) {
        var more :| Runs(p, st, more) && Finished(After(p, st, more));
        AbandonedForever(p, st, more);
      }
      assert Runs(p, init, es) && !CanFinish(p, After(p, init, es));
      assert !AlwaysCanFinish(p, init);
    }
  }
}
