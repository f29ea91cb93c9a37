/**
 * Emissions and a drain as interleaved steps. An emission first checks for a drain and only then
 * counts itself in flight: here these are two steps, and others may come between them.
 */
module Interleaving {
  import opened Models
  import opened Routing

  type Task = nat

  /** Where an emission that was not held stands; a dispatching one works on the table it read. */
  datatype Stage = Checked | Entered | Dispatching(table: RouteTable)

  datatype DrainPhase = Idle | Waiting | Quiet

  datatype Machine = Machine(
    table: RouteTable, phase: DrainPhase, inflight: int, tasks: map<Task, Stage>, held: seq<Task>)

  datatype Move =
    | Check(t: Task)
    | Enter(t: Task)
    | ReadTable(t: Task)
    | CallHandler(t: Task)
    | Leave(t: Task)
    | BeginDrain
    | Quiesce
    | Load(table: RouteTable)
    | EndDrain

  predicate At(s: Machine, t: Task, stage: Stage) {
    t in s.tasks && s.tasks[t] == stage
  }

  /** When a move can be made: waiting ends with nothing in flight, and only a quiet system is cut over. */
  predicate Enabled(s: Machine, m: Move) {
    match m
    case Check(t) => t !in s.tasks
    case Enter(t) => At(s, t, Checked)
    case ReadTable(t) => At(s, t, Entered)
    case CallHandler(t) => t in s.tasks && s.tasks[t].Dispatching?
    case Leave(t) => t in s.tasks && s.tasks[t].Dispatching?
    case BeginDrain => s.phase.Idle?
    case Quiesce => s.phase.Waiting? && s.inflight == 0
    case Load(_) => s.phase.Quiet?
    case EndDrain => s.phase.Quiet?
  }

  function Moved(s: Machine, m: Move): Machine
    requires Enabled(s, m)
  {
    match m
    case Check(t) => if s.phase.Idle? then s.(tasks := s.tasks[t := Checked]) else s.(held := s.held + [t])
    case Enter(t) => s.(inflight := s.inflight + 1, tasks := s.tasks[t := Entered])
    case ReadTable(t) => s.(tasks := s.tasks[t := Dispatching(s.table)])
    case CallHandler(_) => s
    case Leave(t) => s.(inflight := s.inflight - 1, tasks := s.tasks - {t})
    case BeginDrain => s.(phase := Waiting, held := [])
    case Quiesce => s.(phase := Quiet)
    case Load(table) => s.(table := table)
    case EndDrain => s.(phase := Idle, held := [])
  }

  ghost predicate Runs(s: Machine, moves: seq<Move>)
    decreases |moves|
  {
    moves == [] || (Enabled(s, moves[0]) && Runs(Moved(s, moves[0]), moves[1..]))
  }

  /** The state after the first k moves. */
  ghost function After(s: Machine, moves: seq<Move>, k: nat): Machine
    requires Runs(s, moves) && k <= |moves|
    decreases k
  {
    if k == 0 then s else After(Moved(s, moves[0]), moves[1..], k - 1)
  }

  // --------------------------------------------------------------- invariants

  ghost function Flying(s: Machine): set<Task> {
    set t | t in s.tasks && !s.tasks[t].Checked?
  }

  /** The counter counts what is in flight. */
  ghost predicate Counted(s: Machine) {
    s.inflight == |Flying(s)|
  }

  /** No emission stands between its check and its entry. */
  ghost predicate WindowClear(s: Machine) {
    forall t :: t in s.tasks ==> !s.tasks[t].Checked?
  }

  /**
   * While a drain is active no emission is between check and entry; a quiet system has nothing in
   * flight; every dispatch works on the current table.
   */
  ghost predicate Safe(s: Machine) {
    && Counted(s)
    && (!s.phase.Idle? ==> WindowClear(s))
    && (s.phase.Quiet? ==> Flying(s) == {})
    && (forall t :: t in s.tasks && s.tasks[t].Dispatching? ==> s.tasks[t].table == s.table)
  }

  lemma MoveKeepsCount(s: Machine, m: Move)
    requires Counted(s) && Enabled(s, m)
    ensures Counted(Moved(s, m))
  {
    var next := Moved(s, m);
    match m {
      case Check(t) => assert Flying(next) == Flying(s);
      case Enter(t) => assert Flying(next) == Flying(s) + {t};
      case ReadTable(t) => assert Flying(next) == Flying(s);
      case Leave(t) => assert Flying(next) == Flying(s) - {t} && t in Flying(s);
      case CallHandler(_) | BeginDrain | Quiesce | Load(_) | EndDrain => assert Flying(next) == Flying(s);
    }
  }

  /** Every move keeps the system safe, provided a drain begins while the window is clear. */
  lemma MoveKeepsSafe(s: Machine, m: Move)
    requires Safe(s) && Enabled(s, m)
    requires m.BeginDrain? ==> WindowClear(s)
    ensures Safe(Moved(s, m))
  {
    MoveKeepsCount(s, m);
    var next := Moved(s, m);
    if m.Quiesce? { assert |Flying(s)| == 0; }
    if s.phase.Quiet? { assert forall t :: t in s.tasks ==> t in Flying(s) || s.tasks[t].Checked?; }
    assert next.phase.Quiet? && s.phase.Quiet? ==> next.tasks == s.tasks;
  }

  /** Every drain of the run begins while no emission is between its check and its entry. */
  ghost predicate DrainsBeginClear(s: Machine, moves: seq<Move>)
    requires Runs(s, moves)
  {
    forall k :: 0 <= k < |moves| && moves[k].BeginDrain? ==> WindowClear(After(s, moves, k))
  }

  /** All states of such a run are safe. */
  lemma {:induction false} ClearRunsSafe(s: Machine, moves: seq<Move>, k: nat)
    requires Safe(s) && Runs(s, moves) && DrainsBeginClear(s, moves) && k <= |moves|
    ensures Safe(After(s, moves, k))
    decreases k
  {
    if k == 0 {
    } else {
      var next := Moved(s, moves[0]);
      assert moves[0].BeginDrain? ==> WindowClear(After(s, moves, 0));
      MoveKeepsSafe(s, moves[0]);
      forall j | 0 <= j < |moves[1..]| && moves[1..][j].BeginDrain? ensures WindowClear(After(next, moves[1..], j)) {
        assert After(s, moves, j + 1) == After(next, moves[1..], j);
      }
      ClearRunsSafe(next, moves[1..], k - 1);
    }
  }

  lemma {:induction false} AfterEnabled(s: Machine, moves: seq<Move>, k: nat)
    requires Runs(s, moves) && k < |moves|
    ensures Enabled(After(s, moves, k), moves[k])
    ensures After(s, moves, k + 1) == Moved(After(s, moves, k), moves[k])
    decreases k
  {
    if k == 0 {
      assert After(s, moves, 1) == After(Moved(s, moves[0]), moves[1..], 0);
    } else {
      AfterEnabled(Moved(s, moves[0]), moves[1..], k - 1);
      assert After(s, moves, k + 1) == After(Moved(s, moves[0]), moves[1..], k);
    }
  }

  /**
   * In a run whose drains begin while the window is clear, no handler is called from quiescence to
   * the end of the drain, and every handler is called on behalf of the table that is current then:
   * no emission straddles a cutover.
   */
  lemma CallsNeverStraddleCutover(s: Machine, moves: seq<Move>, k: nat)
    requires Safe(s) && Runs(s, moves) && DrainsBeginClear(s, moves)
    requires k < |moves| && moves[k].CallHandler?
    ensures var now := After(s, moves, k);
            && !now.phase.Quiet?
            && moves[k].t in now.tasks && now.tasks[moves[k].t] == Dispatching(now.table)
  {
    ClearRunsSafe(s, moves, k);
    AfterEnabled(s, moves, k);
    var now := After(s, moves, k);
    var t := moves[k].t;
    assert t in Flying(now);
  }

  /** A system at rest is safe, and an emission that meets no drain calls its handlers. */
  lemma RestIsSafe(table: RouteTable, t: Task)
    ensures var s := Machine(table, Idle, 0, map[], []);
            && Safe(s) && Runs(s, [Check(t), Enter(t), ReadTable(t), CallHandler(t)])
  {
    var s := Machine(table, Idle, 0, map[], []);
    assert Flying(s) == {};
    var s1 := Moved(s, Check(t));
    var s2 := Moved(s1, Enter(t));
    var s3 := Moved(s2, ReadTable(t));
    RunsCons(s3, CallHandler(t), []);
    RunsCons(s2, ReadTable(t), [CallHandler(t)]);
    RunsCons(s1, Enter(t), [ReadTable(t), CallHandler(t)]);
    RunsCons(s, Check(t), [Enter(t), ReadTable(t), CallHandler(t)]);
    assert [Check(t), Enter(t), ReadTable(t), CallHandler(t)] == [Check(t)] + [Enter(t), ReadTable(t), CallHandler(t)];
  }

  // ------------------------------------------------------- the window, exactly

  ghost predicate OneEpoch(moves: seq<Move>) {
    moves != [] && moves[0].BeginDrain? && forall k :: 1 <= k < |moves| ==> !moves[k].BeginDrain? && !moves[k].EndDrain?
  }

  /** Some drain begun now can reach a handler call while the system counts as quiet. */
  ghost predicate CallPossibleWhenQuiet(s: Machine) {
    exists moves, k: nat :: IntrudingRun(s, moves, k)
  }

  ghost predicate IntrudingRun(s: Machine, moves: seq<Move>, k: nat) {
    && Runs(s, moves) && OneEpoch(moves) && k < |moves|
    && moves[k].CallHandler? && After(s, moves, k).phase.Quiet?
  }

  /**
   * A drain that begins now, whatever is in flight, is free of intruding calls exactly when no emission
   * stands between its check and its entry.
   */
  lemma QuietExactlyWhenWindowClear(s: Machine)
    requires Safe(s) && s.phase.Idle?
    ensures CallPossibleWhenQuiet(s) <==> !WindowClear(s)
  {
    if !WindowClear(s) {
      var t :| t in s.tasks && s.tasks[t].Checked?;
      var moves := Intrude(s, t);
      assert IntrudingRun(s, moves, |moves| - 1);
    } else if CallPossibleWhenQuiet(s) {
      var moves, k: nat :| IntrudingRun(s, moves, k);
      assert After(s, moves, 0) == s;
      assert DrainsBeginClear(s, moves);
      CallsNeverStraddleCutover(s, moves, k);
    }
  }

  predicate Finishing(m: Move) {
    m.ReadTable? || m.Leave?
  }

  predicate AllFinishing(moves: seq<Move>) {
    forall i :: 0 <= i < |moves| ==> Finishing(moves[i])
  }

  ghost function End(s: Machine, moves: seq<Move>): Machine
    requires Runs(s, moves)
  {
    After(s, moves, |moves|)
  }

  /** While a drain waits, what is in flight can finish, and leaves an emission before its entry where it is. */
  lemma {:induction false} Flush(s: Machine, t: Task) returns (moves: seq<Move>)
    requires Counted(s) && s.phase.Waiting? && At(s, t, Checked)
    ensures Runs(s, moves) && AllFinishing(moves)
    ensures var e := End(s, moves); e.phase.Waiting? && e.inflight == 0 && At(e, t, Checked)
    decreases |Flying(s)|
  {
    if Flying(s) == {} {
      moves := [];
    } else {
      var u :| u in Flying(s);
      var first := Finish(s, t, u);
      var rest := Flush(End(s, first), t);
      moves := first + rest;
      RunsAppend(s, first, rest);
    }
  }

  /** One emission in flight reads the table, unless it has, and leaves. */
  lemma Finish(s: Machine, t: Task, u: Task) returns (moves: seq<Move>)
    requires Counted(s) && s.phase.Waiting? && At(s, t, Checked) && u in Flying(s)
    ensures Runs(s, moves) && AllFinishing(moves)
    ensures var e := End(s, moves);
            Counted(e) && e.phase.Waiting? && At(e, t, Checked) && |Flying(e)| < |Flying(s)|
  {
    if s.tasks[u].Dispatching? {
      moves := [Leave(u)];
      OneMove(s, Leave(u));
      LeavingFinishes(s, u);
    } else {
      var read := Moved(s, ReadTable(u));
      moves := [ReadTable(u)] + [Leave(u)];
      OneMove(s, ReadTable(u));
      OneMove(read, Leave(u));
      RunsAppend(s, [ReadTable(u)], [Leave(u)]);
      MoveKeepsCount(s, ReadTable(u));
      assert Flying(read) == Flying(s);
      LeavingFinishes(read, u);
    }
  }

  lemma OneMove(s: Machine, m: Move)
    requires Enabled(s, m)
    ensures Runs(s, [m]) && End(s, [m]) == Moved(s, m)
  {
    assert [m][1..] == [];
    AfterEnabled(s, [m], 0);
  }

  lemma LeavingFinishes(s: Machine, u: Task)
    requires Counted(s) && u in s.tasks && s.tasks[u].Dispatching?
    ensures Counted(Moved(s, Leave(u))) && |Flying(Moved(s, Leave(u)))| < |Flying(s)|
  {
    MoveKeepsCount(s, Leave(u));
  }

  /** Runs can be put one after the other. */
  lemma {:induction false} RunsAppend(s: Machine, a: seq<Move>, b: seq<Move>)
    requires Runs(s, a) && Runs(End(s, a), b)
    ensures Runs(s, a + b) && End(s, a + b) == End(End(s, a), b)
    decreases |a|
  {
    if a == [] {
      assert a + b == b;
    } else {
      var next := Moved(s, a[0]);
      assert (a + b)[0] == a[0] && (a + b)[1..] == a[1..] + b;
      assert End(s, a) == End(next, a[1..]);
      RunsAppend(next, a[1..], b);
    }
  }

  /**
   * The emission checks, the drain begins and lets finish what is in flight, and then the emission goes on
   * and calls a handler in a system that counts as quiet.
   */
  lemma Intrude(s: Machine, t: Task) returns (moves: seq<Move>)
    requires Counted(s) && s.phase.Idle? && At(s, t, Checked)
    ensures moves != [] && IntrudingRun(s, moves, |moves| - 1)
  {
    var s1 := Moved(s, BeginDrain);
    MoveKeepsCount(s, BeginDrain);
    var flush := Flush(s1, t);
    var before := FinishIntruding(End(s1, flush), t);
    RunsAppend(s1, flush, before);
    var calling := End(s1, flush + before);
    OneMove(s, BeginDrain);
    RunsAppend(s, [BeginDrain], flush + before);
    var start := [BeginDrain] + (flush + before);
    OneMove(calling, CallHandler(t));
    RunsAppend(s, start, [CallHandler(t)]);
    moves := start + [CallHandler(t)];
    AfterPrefix(s, start, [CallHandler(t)]);
  }

  /** Once nothing is in flight, the drain counts as quiet and the emission enters and reads the table. */
  lemma FinishIntruding(s: Machine, t: Task) returns (moves: seq<Move>)
    requires s.phase.Waiting? && s.inflight == 0 && At(s, t, Checked)
    ensures moves == [Quiesce, Enter(t), ReadTable(t)]
    ensures Runs(s, moves)
    ensures var e := End(s, moves); e.phase.Quiet? && t in e.tasks && e.tasks[t].Dispatching?
  {
    var s1 := Moved(s, Quiesce);
    var s2 := Moved(s1, Enter(t));
    OneMove(s, Quiesce);
    OneMove(s1, Enter(t));
    OneMove(s2, ReadTable(t));
    RunsAppend(s1, [Enter(t)], [ReadTable(t)]);
    RunsAppend(s, [Quiesce], [Enter(t)] + [ReadTable(t)]);
    moves := [Quiesce] + ([Enter(t)] + [ReadTable(t)]);
  }

  lemma {:induction false} AfterPrefix(s: Machine, a: seq<Move>, b: seq<Move>)
    requires Runs(s, a) && Runs(s, a + b)
    ensures After(s, a + b, |a|) == End(s, a)
    decreases |a|
  {
    if a == [] {
    } else {
      assert (a + b)[0] == a[0] && (a + b)[1..] == a[1..] + b;
      AfterPrefix(Moved(s, a[0]), a[1..], b);
    }
  }

  lemma RunsCons(s: Machine, m: Move, rest: seq<Move>)
    requires Enabled(s, m) && Runs(Moved(s, m), rest)
    ensures Runs(s, [m] + rest)
  {
    assert ([m] + rest)[1..] == rest;
  }

  /** Such an emission may even read the old table and call its handlers after the new one is loaded. */
  lemma StaleCall(s: Machine, t: Task, newer: RouteTable)
    requires s.phase.Quiet? && At(s, t, Checked) && newer != s.table
    ensures var moves := [Enter(t), ReadTable(t), Load(newer), CallHandler(t)];
            Runs(s, moves) && After(s, moves, 3).table == newer && After(s, moves, 3).tasks[t].table == s.table
  {
    var moves := [Enter(t), ReadTable(t), Load(newer), CallHandler(t)];
    var s1 := Moved(s, Enter(t));
    var s2 := Moved(s1, ReadTable(t));
    var s3 := Moved(s2, Load(newer));
    RunsCons(s3, CallHandler(t), []);
    RunsCons(s2, Load(newer), [CallHandler(t)]);
    RunsCons(s1, ReadTable(t), [Load(newer), CallHandler(t)]);
    RunsCons(s, Enter(t), [ReadTable(t), Load(newer), CallHandler(t)]);
    assert moves == [Enter(t)] + [ReadTable(t), Load(newer), CallHandler(t)];
    AfterEnabled(s, moves, 0);
    AfterEnabled(s, moves, 1);
    AfterEnabled(s, moves, 2);
  }
}
