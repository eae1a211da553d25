/**
 Safety of the handshake, for any number of gates: who holds which lock is
 fixed by where the sessions stand, and the segments happen one after the other.
 */
module HandshakeSafety {
  import opened Handshake

  // ---------------------------------------------------------------- locks

  /** Executing one statement changes what a session should hold exactly as the statement says. */
  lemma HoldsStep(p: Protocol, s: Session, pos: Pos, k: nat)
    requires p.work != [] && ValidPos(p, s, pos) && !pos.Gone?
    ensures
      var stmt, succ := StmtAt(p, s, pos), Succ(p, s, pos);
      match stmt
      case Lock(id) => !Holds(p, s, pos, id) && (Holds(p, s, succ, k) <==> Holds(p, s, pos, k) || k == id)
      case Unlock(id) => Holds(p, s, pos, id) && (Holds(p, s, succ, k) <==> Holds(p, s, pos, k) && k != id)
      case Poll(id) =>
        && (Holds(p, s, succ, k) <==> Holds(p, s, pos, k))
        && (Holds(p, s, Undo, k) <==> Holds(p, s, pos, k) || k == id)
      case Quit => !Holds(p, s, succ, k)
      case _ => Holds(p, s, succ, k) <==> Holds(p, s, pos, k)
  {
  }

  lemma InitInv(p: Protocol, table: seq<int>)
    requires p.Valid()
    ensures Inv(p, Init(p, table))
  {
  }

  /** The holder of a lock is where the other session's position says it is. */
  lemma HolderOf(p: Protocol, st: State, s: Session, k: nat)
    requires p.work != [] && LocksInv(p, st)
    ensures Owns(st.locks, s, k) <==> Holds(p, s, st.Pos(s), k)
    ensures Available(st.locks, s, k) <==> !Holds(p, Other(s), st.Pos(Other(s)), k)
  {
    assert Owns(st.locks, Other(s), k) <==> Holds(p, Other(s), st.Pos(Other(s)), k);
  }

  /** The session that moves holds what its new position says. */
  lemma MoverHolds(p: Protocol, st: State, s: Session, k: nat)
    requires p.work != [] && ValidState(p, st) && Enabled(p, st, Run(s)) && LocksInv(p, st)
    ensures var r := Next(p, st, Run(s)); Owns(r.locks, s, k) <==> Holds(p, s, r.Pos(s), k)
  {
    var stmt := StmtAt(p, s, st.Pos(s));
    HoldsStep(p, s, st.Pos(s), k);
    HolderOf(p, st, s, k);
    if stmt.Lock? || stmt.Unlock? || stmt.Poll? {
      HolderOf(p, st, s, stmt.id);
    }
  }

  /** The other one holds what it held. */
  lemma OtherHolds(p: Protocol, st: State, s: Session, k: nat)
    requires p.work != [] && ValidState(p, st) && Enabled(p, st, Run(s)) && LocksInv(p, st)
    ensures
      var r := Next(p, st, Run(s));
      Owns(r.locks, Other(s), k) <==> Holds(p, Other(s), r.Pos(Other(s)), k)
  {
    var stmt := StmtAt(p, s, st.Pos(s));
    HolderOf(p, st, Other(s), k);
    if stmt.Lock? || stmt.Unlock? || stmt.Poll? {
      HolderOf(p, st, s, stmt.id);
    }
  }

  lemma DepthsStep(p: Protocol, st: State, s: Session, k: nat)
    requires p.work != [] && ValidState(p, st) && Enabled(p, st, Run(s)) && LocksInv(p, st)
    requires k in Next(p, st, Run(s)).locks
    ensures Next(p, st, Run(s)).locks[k].depth == 1
  {
    HoldsStep(p, s, st.Pos(s), k);
    HolderOf(p, st, s, k);
  }

  lemma LocksStep(p: Protocol, st: State, s: Session)
    requires p.work != [] && ValidState(p, st) && Enabled(p, st, Run(s)) && LocksInv(p, st)
    ensures LocksInv(p, Next(p, st, Run(s)))
  {
    var r := Next(p, st, Run(s));
    forall x: Session, k: nat ensures Owns(r.locks, x, k) <==> Holds(p, x, r.Pos(x), k) {
      MoverHolds(p, st, s, k);
      OtherHolds(p, st, s, k);
    }
    forall k | k in r.locks ensures r.locks[k].depth == 1 {
      DepthsStep(p, st, s, k);
    }
  }

  // ---------------------------------------------------------------- order

  /** Locking the other session's gate takes that session to have opened it. */
  lemma GateOpen(p: Protocol, s: Session, o: Pos, g: nat)
    requires p.work != [] && ValidPos(p, Other(s), o)
    requires 1 <= g <= p.Gates() && Turn(g - 1) == Other(s)
    requires !Arriving(o) && !Holds(p, Other(s), o, g)
    ensures Phase(p, o) >= g
  {
  }

  /** A session gets one gate further by opening its own or by locking the other's. */
  lemma PhaseStep(p: Protocol, s: Session, pos: Pos)
    requires p.work != [] && ValidPos(p, s, pos) && !pos.Gone?
    ensures
      var g, g' := Phase(p, pos), Phase(p, Succ(p, s, pos));
      g' == g || (g' == g + 1 && (Turn(g) == s || pos == Wait(g + 1)))
    ensures PastPoll(Succ(p, s, pos)) ==> PastPoll(pos) || pos.Try?
    ensures Arriving(Succ(p, s, pos)) ==> Arriving(pos)
  {
  }

  /** One session moves on; the other stays at `o`. */
  lemma InStepStep(p: Protocol, s: Session, pos: Pos, o: Pos)
    requires p.work != [] && ValidPos(p, s, pos) && ValidPos(p, Other(s), o) && !pos.Gone?
    requires InStep(p, s, pos, o) && InStep(p, Other(s), o, pos)
    requires pos.Wait? && pos.gate <= p.Gates() ==> Phase(p, o) >= pos.gate
    requires pos.Try? ==> !Arriving(o)
    ensures InStep(p, s, Succ(p, s, pos), o) && InStep(p, Other(s), o, Succ(p, s, pos))
  {
    PhaseStep(p, s, pos);
  }

  lemma GateOpened(p: Protocol, st: State, s: Session)
    requires p.work != [] && ValidState(p, st) && Enabled(p, st, Run(s))
    requires LocksInv(p, st) && OrderInv(p, st)
    ensures
      var pos, o := st.Pos(s), st.Pos(Other(s));
      pos.Wait? && pos.gate <= p.Gates() ==> Phase(p, o) >= pos.gate
  {
    var pos := st.Pos(s);
    if pos.Wait? && pos.gate <= p.Gates() {
      HolderOf(p, st, s, pos.gate);
      GateOpen(p, s, st.Pos(Other(s)), pos.gate);
    }
  }

  /** What a step of session `s` leaves alone and what it adds to the log. */
  ghost predicate Moves(p: Protocol, st: State, s: Session, r: State)
    requires p.work != [] && ValidState(p, st)
  {
    && r.Pos(Other(s)) == st.Pos(Other(s))
    && if st.Pos(s).Try? && r.Pos(s).Undo? then r.log == st.log
       else
         && r.Pos(s) == Succ(p, s, st.Pos(s))
         && var stmt := StmtAt(p, s, st.Pos(s));
            if stmt.Do? then |r.log| == |st.log| + 1 && r.log[..|st.log|] == st.log && r.log[|st.log|].op == stmt.op
            else r.log == st.log
  }

  lemma NextMoves(p: Protocol, st: State, s: Session)
    requires p.work != [] && ValidState(p, st) && Enabled(p, st, Run(s))
    ensures Moves(p, st, s, Next(p, st, Run(s)))
  {
  }

  lemma OrderMoves(p: Protocol, st: State, s: Session, r: State)
    requires p.work != [] && ValidState(p, st) && !st.Pos(s).Gone?
    requires OrderInv(p, st) && Moves(p, st, s, r)
    requires var pos, o := st.Pos(s), st.Pos(Other(s));
      && (pos.Wait? && pos.gate <= p.Gates() ==> Phase(p, o) >= pos.gate)
      && (pos.Try? && !r.Pos(s).Undo? ==> !Arriving(o))
    ensures OrderInv(p, r)
  {
    if !(st.Pos(s).Try? && r.Pos(s).Undo?) {
      InStepStep(p, s, st.Pos(s), st.Pos(Other(s)));
    }
  }

  /** The polling loop ends only when the other session holds its readiness lock. */
  lemma PollSeesOther(p: Protocol, st: State, s: Session)
    requires p.work != [] && ValidState(p, st) && Enabled(p, st, Run(s)) && LocksInv(p, st)
    ensures st.Pos(s).Try? && !Next(p, st, Run(s)).Pos(s).Undo? ==> !Arriving(st.Pos(Other(s)))
  {
    HolderOf(p, st, s, p.Ready(Other(s)));
  }

  // ---------------------------------------------------------------- the log

  lemma {:induction false} PrefixGrows(p: Protocol, a: nat, b: nat)
    requires a <= b <= |p.work|
    ensures |Prefix(p, a)| <= |Prefix(p, b)|
    ensures Prefix(p, a) == Prefix(p, b)[..|Prefix(p, a)|]
    decreases b - a
  {
    if a < b {
      PrefixGrows(p, a, b - 1);
    }
  }

  /** Statement i of segment k in the whole script. */
  lemma ScriptAt(p: Protocol, k: nat, i: nat)
    requires k < |p.work| && i < |p.work[k]|
    ensures |Prefix(p, k)| + i < |Script(p)|
    ensures Script(p)[|Prefix(p, k)| + i] == p.work[k][i]
  {
    PrefixGrows(p, k + 1, |p.work|);
    assert Prefix(p, k + 1)[|Prefix(p, k)| + i] == p.work[k][i];
  }

  /** A session at work has the other one waiting for the gate at the end of the segment. */
  lemma OneAtWork(p: Protocol, s: Session, pos: Pos, o: Pos)
    requires p.work != [] && ValidPos(p, s, pos) && ValidPos(p, Other(s), o)
    requires InStep(p, s, pos, o) && InStep(p, Other(s), o, pos)
    requires pos.Work? || pos.Pass?
    ensures Phase(p, o) == Phase(p, pos)
    ensures o.Try? || o.Undo? || o.Begin? || o == Wait(Phase(p, pos) + 1) || o.Gone?
    ensures o.Try? || o.Undo? || o.Begin? ==> Phase(p, pos) == 0
    ensures Mark(p, Other(s), o) == |Prefix(p, Phase(p, pos))|
  {
    if o.Gone? {
      assert Phase(p, pos) == p.Gates();
    }
  }

  lemma MarkStep(p: Protocol, s: Session, pos: Pos)
    requires p.work != [] && ValidPos(p, s, pos) && !pos.Gone?
    ensures
      var m, m' := Mark(p, s, pos), Mark(p, s, Succ(p, s, pos));
      if StmtAt(p, s, pos).Do? then m' == m + 1
      else if pos.Wait? && pos.gate <= p.Gates() then m <= m' == |Prefix(p, pos.gate)|
      else m' == m
  {
    match pos
    case Work(k, i) =>
      assert Prefix(p, k + 1) == Prefix(p, k) + p.work[k];
    case Wait(g) =>
      if g <= p.Gates() {
        PrefixGrows(p, g - 1, g);
      }
    case _ =>
  }

  /** A session past gate g knows that everything before segment g is done. */
  lemma MarkAtLeast(p: Protocol, s: Session, pos: Pos, g: nat)
    requires p.work != [] && ValidPos(p, s, pos)
    requires g <= Phase(p, pos)
    ensures Mark(p, s, pos) >= |Prefix(p, g)|
  {
    PrefixGrows(p, g, Phase(p, pos));
    PrefixGrows(p, Phase(p, pos), |p.work|);
  }

  /** A statement of a segment is the next one of the script; nothing else counts. */
  lemma MarksStep(p: Protocol, s: Session, pos: Pos, o: Pos)
    requires p.work != [] && ValidPos(p, s, pos) && ValidPos(p, Other(s), o) && !pos.Gone?
    requires InStep(p, s, pos, o) && InStep(p, Other(s), o, pos)
    requires pos.Wait? && pos.gate <= p.Gates() ==> Phase(p, o) >= pos.gate
    ensures
      var m, m', n := Mark(p, s, pos), Mark(p, s, Succ(p, s, pos)), Mark(p, Other(s), o);
      if StmtAt(p, s, pos).Do?
      then n <= m && m' == m + 1 && m < |Script(p)| && Script(p)[m] == StmtAt(p, s, pos).op
      else Max(m', n) == Max(m, n)
  {
    MarkStep(p, s, pos);
    if pos.Work? {
      OneAtWork(p, s, pos, o);
      if pos.i < |p.work[pos.k]| {
        ScriptAt(p, pos.k, pos.i);
      }
    } else if pos.Wait? && pos.gate <= p.Gates() {
      MarkAtLeast(p, Other(s), o, pos.gate);
    }
  }

  lemma LogMoves(p: Protocol, st: State, s: Session, r: State)
    requires p.work != [] && ValidState(p, st) && ValidState(p, r) && !st.Pos(s).Gone?
    requires OrderInv(p, st) && LogInv(p, st) && Moves(p, st, s, r)
    requires var pos, o := st.Pos(s), st.Pos(Other(s));
      pos.Wait? && pos.gate <= p.Gates() ==> Phase(p, o) >= pos.gate
    ensures LogInv(p, r)
  {
    MarksStep(p, s, st.Pos(s), st.Pos(Other(s)));
    forall j | 0 <= j < |r.log| && j < |Script(p)| ensures r.log[j].op == Script(p)[j] {
      if j < |st.log| {
        assert r.log[j] == r.log[..|st.log|][j];
      }
    }
  }

  // ---------------------------------------------------------------- runs

  lemma StepInv(p: Protocol, st: State, e: Event)
    requires p.Valid() && Inv(p, st) && Enabled(p, st, e)
    ensures Inv(p, Next(p, st, e))
  {
    if e.Run? {
      LocksStep(p, st, e.s);
      GateOpened(p, st, e.s);
      PollSeesOther(p, st, e.s);
      NextMoves(p, st, e.s);
      OrderMoves(p, st, e.s, Next(p, st, e));
      LogMoves(p, st, e.s, Next(p, st, e));
    }
  }

  lemma {:induction false} RunInv(p: Protocol, st: State, es: seq<Event>)
    requires p.Valid() && Inv(p, st) && Runs(p, st, es)
    ensures Inv(p, After(p, st, es))
    decreases |es|
  {
    if es != [] {
      StepInv(p, st, es[0]);
      RunInv(p, Next(p, st, es[0]), es[1..]);
    }
  }

  /**
   In every interleaving, however long either session polls, what has been
   executed is an initial part of the script: the segments in their order, each
   from its start.
   */
  lemma {:induction false} ExecutedInOrder(p: Protocol, table: seq<int>, es: seq<Event>)
    requires p.Valid() && Runs(p, Init(p, table), es)
    ensures
      var log := After(p, Init(p, table), es).log;
      && |log| <= |Script(p)|
      && forall j :: 0 <= j < |log| ==> log[j].op == Script(p)[j]
  {
    InitInv(p, table);
    RunInv(p, Init(p, table), es);
  }

  /** While one session is inside a segment the other is not inside one. */
  lemma {:induction false} MutualExclusion(p: Protocol, table: seq<int>, es: seq<Event>)
    requires p.Valid() && Runs(p, Init(p, table), es)
    ensures
      var st := After(p, Init(p, table), es);
      !(st.pos1.Work? && st.pos2.Work?)
  {
    InitInv(p, table);
    RunInv(p, Init(p, table), es);
    var st := After(p, Init(p, table), es);
    if st.pos1.Work? {
      OneAtWork(p, T1, st.pos1, st.pos2);
    }
  }

  /** When both scripts have ended everything has been executed and no lock is left. */
  lemma {:induction false} CompleteAtEnd(p: Protocol, table: seq<int>, es: seq<Event>)
    requires p.Valid() && Runs(p, Init(p, table), es)
    requires Finished(After(p, Init(p, table), es))
    ensures |After(p, Init(p, table), es).log| == |Script(p)|
    ensures After(p, Init(p, table), es).locks == map[]
  {
    InitInv(p, table);
    RunInv(p, Init(p, table), es);
    var st := After(p, Init(p, table), es);
    PrefixGrows(p, p.Gates(), |p.work|);
    forall k: nat ensures k !in st.locks {
      HolderOf(p, st, T1, k);
      HolderOf(p, st, T2, k);
    }
  }
}
