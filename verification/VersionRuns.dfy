/** Properties of every run of the version store. */
module VersionRuns {
  import opened Ids
  import opened Models
  import opened GraphVersions

  datatype StoreOp = Commit(snapshot: GraphSnapshot) | RollBack | RetireTo(keep: int)

  ghost function Step(s: StoreState, op: StoreOp): StoreState {
    match op
    case Commit(g) => Committed(s, g)
    case RollBack => RolledBack(s)
    case RetireTo(keep) => RetiredTo(s, keep)
  }

  ghost function Run(s: StoreState, ops: seq<StoreOp>): StoreState
    decreases |ops|
  {
    if ops == [] then s else Run(Step(s, ops[0]), ops[1..])
  }

  /** Every commit of the run takes a number the store does not know. */
  ghost predicate FreshRun(s: StoreState, ops: seq<StoreOp>)
    decreases |ops|
  {
    ops == [] ||
    (&& (ops[0].Commit? ==> ops[0].snapshot.graphVersion !in Known(s))
     && FreshRun(Step(s, ops[0]), ops[1..]))
  }

  function HistoryStep(op: StoreOp): map<int, GraphSnapshot> {
    if op.Commit? then map[op.snapshot.graphVersion := op.snapshot] else map[]
  }

  /** The snapshots a run commits, by version. */
  function CommittedIn(ops: seq<StoreOp>): map<int, GraphSnapshot> {
    if ops == [] then map[] else HistoryStep(ops[0]) + CommittedIn(ops[1..])
  }

  lemma CommittedInKeys(ops: seq<StoreOp>)
    requires ops != []
    ensures CommittedIn(ops).Keys == HistoryStep(ops[0]).Keys + CommittedIn(ops[1..]).Keys
  {
  }

  // ------------------------------------------------------------- invariants

  ghost predicate Keyed(m: map<int, GraphSnapshot>) {
    forall v :: v in m ==> m[v].graphVersion == v
  }

  /** Holds in every run, even of commits that reuse a number. */
  ghost predicate Consistent(s: StoreState) {
    && Keyed(s.live) && Keyed(s.archived)
    && (s.active.Some? ==> s.active.value in s.live)
    && (s.active.None? ==> Known(s) == {} && s.rollback.None?)
    && (s.rollback.Some? ==> CanRollBack(s))
    && (0 < s.retention ==> |s.live| <= s.retention + 1 && (s.rollback.Some? ==> |s.live| <= s.retention))
  }

  /** Holds in addition when every commit was fresh. */
  ghost predicate Separated(s: StoreState) {
    && s.live.Keys !! s.archived.Keys
    && (s.active.Some? ==> s.rollback != s.active)
  }

  /** `archived_graph_versions` remembers every archived number and nothing unknown. */
  ghost predicate ArchiveLogged(s: StoreState) {
    && (forall v :: v in s.archived ==> v in s.archivedVersions)
    && (forall v :: v in s.archivedVersions ==> v in Known(s))
  }

  predicate Fresh(s: StoreState) {
    s.active.None? && s.rollback.None? && s.archivedVersions == [] && s.live == map[] && s.archived == map[]
  }

  lemma FreshIsConsistent(s: StoreState)
    requires Fresh(s)
    ensures Consistent(s) && Separated(s) && ArchiveLogged(s)
  {
  }

  // --------------------------------------------------------------- retiring

  lemma ArchiveKeeps(s: StoreState, v: int)
    requires v in s.live && v !in ActiveVersions(s)
    ensures History(Archive(s, v)) == History(s)
    ensures Known(Archive(s, v)) == Known(s)
    ensures Keyed(s.live) && Keyed(s.archived) ==> Keyed(Archive(s, v).live) && Keyed(Archive(s, v).archived)
    ensures s.live.Keys !! s.archived.Keys ==> Archive(s, v).live.Keys !! Archive(s, v).archived.Keys
    ensures ArchiveLogged(s) ==> ArchiveLogged(Archive(s, v))
  {
    assert v in History(s);
    assert Known(Archive(s, v)) == Known(s);
    forall w | w in History(s) ensures History(Archive(s, v))[w] == History(s)[w] {
    }
  }

  /** Retirement loses nothing, keeps the active version live and fits the window. */
  lemma {:induction false} RetiredKeeps(s: StoreState)
    ensures var t := Retired(s);
            && t.active == s.active && t.rollback == s.rollback && t.retention == s.retention
            && History(t) == History(s) && Known(t) == Known(s)
            && (s.active.Some? && s.active.value in s.live ==> s.active.value in t.live)
            && t.live.Keys <= s.live.Keys
            && (Keyed(s.live) && Keyed(s.archived) ==> Keyed(t.live) && Keyed(t.archived))
            && (s.live.Keys !! s.archived.Keys ==> t.live.Keys !! t.archived.Keys)
            && (ArchiveLogged(s) ==> ArchiveLogged(t))
            && !MustRetire(t)
    decreases |s.live|
  {
    if !MustRetire(s) {
    } else {
      var v := Lowest(s.live.Keys - ActiveVersions(s));
      Archived1(s, v);
      ArchiveKeeps(s, v);
      RetiredKeeps(Archive(s, v));
    }
  }

  lemma WindowFits(s: StoreState)
    requires !MustRetire(s) && 0 < s.retention
    requires s.active.Some? && s.active.value in s.live
    ensures |s.live| <= s.retention
  {
    if s.live.Keys - ActiveVersions(s) == {} {
      forall v ensures v in s.live.Keys <==> v in {s.active.value} {
        assert v in s.live.Keys && v != s.active.value ==> v in s.live.Keys - ActiveVersions(s);
      }
      assert s.live.Keys == {s.active.value};
    }
  }

  /** Retirement is oldest first: whatever was archived is older than every inactive version left. */
  lemma {:induction false} OldestFirst(s: StoreState, gone: int, kept: int)
    requires gone in s.live && gone !in Retired(s).live
    requires kept in Retired(s).live && kept !in ActiveVersions(s)
    ensures gone < kept
    decreases |s.live|
  {
    if !MustRetire(s) {
    } else {
      var v := Lowest(s.live.Keys - ActiveVersions(s));
      var t := Archive(s, v);
      Archived1(s, v);
      RetiredKeepsLive(t);
      assert kept in t.live && kept in s.live.Keys - ActiveVersions(s);
      if gone != v {
        OldestFirst(t, gone, kept);
      }
    }
  }

  lemma RetiredKeepsLive(s: StoreState)
    ensures Retired(s).live.Keys <= s.live.Keys
  {
    RetiredKeeps(s);
  }

  /** Nothing is archived while the window still fits. */
  lemma {:induction false} RetiresNoMoreThanNeeded(s: StoreState)
    ensures Retired(s) != s ==> |Retired(s).live| >= s.retention
    decreases |s.live|
  {
    if !MustRetire(s) {
    } else {
      var v := Lowest(s.live.Keys - ActiveVersions(s));
      Archived1(s, v);
      RetiresNoMoreThanNeeded(Archive(s, v));
    }
  }

  // ------------------------------------------------------------- single steps

  /** A commit writes one entry of the history and nothing else, whether or not its number is new. */
  lemma CommitWrites(s: StoreState, g: GraphSnapshot)
    ensures History(Committed(s, g)) == History(s)[g.graphVersion := g]
    ensures Known(Committed(s, g)) == Known(s) + {g.graphVersion}
    ensures Committed(s, g).active == Some(g.graphVersion)
    ensures g.graphVersion in Committed(s, g).live && Committed(s, g).live[g.graphVersion] == g
  {
    var p, t := Promoted(s, g), Committed(s, g);
    PromotedWrites(s, g);
    RetiredKeeps(p);
    assert History(p)[g.graphVersion] == History(t)[g.graphVersion];
  }

  lemma PromotedWrites(s: StoreState, g: GraphSnapshot)
    ensures History(Promoted(s, g)) == History(s)[g.graphVersion := g]
    ensures Known(Promoted(s, g)) == Known(s) + {g.graphVersion}
  {
  }

  lemma CommitConsistent(s: StoreState, g: GraphSnapshot)
    requires Consistent(s)
    ensures Consistent(Committed(s, g))
    ensures 0 < s.retention ==> |Committed(s, g).live| <= s.retention
  {
    RetiredKeeps(Promoted(s, g));
    CommitWrites(s, g);
    if 0 < s.retention { WindowFits(Committed(s, g)); }
  }

  lemma CommitLogged(s: StoreState, g: GraphSnapshot)
    requires ArchiveLogged(s)
    ensures ArchiveLogged(Committed(s, g))
  {
    assert ArchiveLogged(Promoted(s, g));
    RetiredKeeps(Promoted(s, g));
  }

  lemma CommitSeparated(s: StoreState, g: GraphSnapshot)
    requires Consistent(s) && Separated(s) && g.graphVersion !in Known(s)
    ensures Separated(Committed(s, g))
  {
    RetiredKeeps(Promoted(s, g));
  }

  lemma RollBackConsistent(s: StoreState)
    requires Consistent(s)
    ensures Consistent(RolledBack(s))
  {
    if CanRollBack(s) {
      RollBackHistory(s);
      var t := RolledBack(s);
      assert t.live.Keys == s.live.Keys + {s.rollback.value};
      assert |t.live.Keys| <= |s.live.Keys| + 1;
      assert |t.live| == |t.live.Keys| && |s.live| == |s.live.Keys|;
    }
  }

  lemma RollBackLogged(s: StoreState)
    requires ArchiveLogged(s)
    ensures ArchiveLogged(RolledBack(s))
  {
    RollBackHistory(s);
  }

  lemma RollBackSeparated(s: StoreState)
    requires Consistent(s) && Separated(s)
    ensures Separated(RolledBack(s))
  {
  }

  lemma RollBackHistory(s: StoreState)
    ensures Known(RolledBack(s)) == Known(s)
    ensures History(RolledBack(s)) == History(s)
  {
    if CanRollBack(s) {
      var t := RolledBack(s);
      assert Known(t) == Known(s);
      assert t.live.Keys == s.live.Keys + {s.rollback.value};
      forall w | w in History(s) ensures History(t)[w] == History(s)[w] {
      }
    }
  }

  function Windowed(s: StoreState, keep: int): StoreState {
    s.(retention := if keep < 0 then 0 else keep)
  }

  lemma RetireToConsistent(s: StoreState, keep: int)
    requires Consistent(s)
    ensures Consistent(RetiredTo(s, keep))
  {
    var p := Windowed(s, keep);
    RetiredKeeps(p);
    if s.active.Some? && 0 < p.retention {
      WindowFits(Retired(p));
    } else if s.active.None? {
      assert s.live == map[];
    }
  }

  lemma RetireToHistory(s: StoreState, keep: int)
    ensures Known(RetiredTo(s, keep)) == Known(s) && History(RetiredTo(s, keep)) == History(s)
  {
    RetiredKeeps(Windowed(s, keep));
  }

  lemma RetireToLogged(s: StoreState, keep: int)
    requires ArchiveLogged(s)
    ensures ArchiveLogged(RetiredTo(s, keep))
  {
    assert ArchiveLogged(Windowed(s, keep));
    RetiredKeeps(Windowed(s, keep));
  }

  lemma RetireToSeparated(s: StoreState, keep: int)
    requires Separated(s)
    ensures Separated(RetiredTo(s, keep))
  {
    RetiredKeeps(Windowed(s, keep));
  }

  // ------------------------------------------------------------------- runs

  /** Every state of every run is consistent, reused numbers or not. */
  lemma {:induction false} RunConsistent(s: StoreState, ops: seq<StoreOp>)
    requires Consistent(s) && ArchiveLogged(s)
    ensures Consistent(Run(s, ops)) && ArchiveLogged(Run(s, ops))
    decreases |ops|
  {
    if ops == [] {
    } else {
      StepConsistent(s, ops[0]);
      RunConsistent(Step(s, ops[0]), ops[1..]);
    }
  }

  lemma StepConsistent(s: StoreState, op: StoreOp)
    requires Consistent(s) && ArchiveLogged(s)
    ensures Consistent(Step(s, op)) && ArchiveLogged(Step(s, op))
  {
    match op
    case Commit(g) => CommitConsistent(s, g); CommitLogged(s, g);
    case RollBack => RollBackConsistent(s); RollBackLogged(s);
    case RetireTo(keep) => RetireToConsistent(s, keep); RetireToLogged(s, keep);
  }

  lemma StepHistory(s: StoreState, op: StoreOp)
    ensures History(Step(s, op)) == History(s) + HistoryStep(op)
  {
    match op
    case Commit(g) => CommitWrites(s, g); MergeOne(History(s), g.graphVersion, g);
    case RollBack => RollBackHistory(s); MergeNone(History(s));
    case RetireTo(keep) => RetireToHistory(s, keep); MergeNone(History(s));
  }

  lemma KnownIsHistory(s: StoreState)
    ensures Known(s) == History(s).Keys
  {
  }

  lemma StepSeparated(s: StoreState, op: StoreOp)
    requires Consistent(s) && Separated(s) && HistoryStep(op).Keys !! Known(s)
    ensures Separated(Step(s, op))
  {
    match op
    case Commit(g) => assert g.graphVersion in HistoryStep(op).Keys; CommitSeparated(s, g);
    case RollBack => RollBackSeparated(s);
    case RetireTo(keep) => RetireToSeparated(s, keep);
  }

  /** Every run, reused numbers or not: the history is the old one overwritten by what was committed. */
  lemma {:induction false} RunHistory(s: StoreState, ops: seq<StoreOp>)
    requires Consistent(s) && ArchiveLogged(s)
    ensures History(Run(s, ops)) == History(s) + CommittedIn(ops)
    decreases |ops|
  {
    if ops == [] {
      MergeNone(History(s));
    } else {
      StepConsistent(s, ops[0]);
      StepHistory(s, ops[0]);
      RunHistory(Step(s, ops[0]), ops[1..]);
      MergeAssociative(History(s), HistoryStep(ops[0]), CommittedIn(ops[1..]));
    }
  }

  /**
   * Conservation: when every commit takes a fresh number no committed entry is
   * ever overwritten, and no number is both live and archived.
   */
  lemma {:induction false} FreshRunOverwritesNothing(s: StoreState, ops: seq<StoreOp>)
    requires Consistent(s) && ArchiveLogged(s) && Separated(s) && FreshRun(s, ops)
    ensures Separated(Run(s, ops))
    ensures Known(s) !! CommittedIn(ops).Keys
    decreases |ops|
  {
    if ops == [] {
    } else {
      StepConsistent(s, ops[0]);
      StepSeparated(s, ops[0]);
      StepHistory(s, ops[0]);
      KnownIsHistory(s);
      KnownIsHistory(Step(s, ops[0]));
      FreshRunOverwritesNothing(Step(s, ops[0]), ops[1..]);
      CommittedInKeys(ops);
    }
  }

  lemma MergeNone(m: map<int, GraphSnapshot>)
    ensures m + map[] == m
  {
  }

  lemma MergeOne(m: map<int, GraphSnapshot>, v: int, g: GraphSnapshot)
    ensures m[v := g] == m + map[v := g]
  {
  }

  lemma MergeAssociative(a: map<int, GraphSnapshot>, b: map<int, GraphSnapshot>, c: map<int, GraphSnapshot>)
    ensures (a + b) + c == a + (b + c)
  {
  }

  /** From the empty store, a fresh run ends with every committed snapshot and only those. */
  lemma FreshStoreConserves(s: StoreState, ops: seq<StoreOp>)
    requires Fresh(s) && FreshRun(s, ops)
    ensures History(Run(s, ops)) == CommittedIn(ops)
    ensures var t := Run(s, ops);
            && t.live.Keys !! t.archived.Keys
            && (t.active.Some? ==> t.active.value in t.live)
            && (0 < t.retention ==> |t.live| <= t.retention + 1)
  {
    FreshIsConsistent(s);
    RunHistory(s, ops);
    FreshRunOverwritesNothing(s, ops);
    RunConsistent(s, ops);
    assert History(s) == map[];
    assert map[] + CommittedIn(ops) == CommittedIn(ops);
  }

  /** The exact condition: a commit leaves history alone unless it reuses a number for another snapshot. */
  lemma CommitConservesExactly(s: StoreState, g: GraphSnapshot)
    ensures (forall v :: v in History(s) ==>
               v in History(Committed(s, g)) && History(Committed(s, g))[v] == History(s)[v])
            <==> (g.graphVersion in Known(s) ==> History(s)[g.graphVersion] == g)
  {
    CommitWrites(s, g);
  }

  /** A number handed out for a candidate that waits is handed out again: the deferred snapshot then overwrites. */
  lemma DeferredNumberReused(first: GraphSnapshot, second: GraphSnapshot)
    requires first.graphVersion == second.graphVersion == 1 && first != second
    ensures var s := StoreState(None, None, [], map[], map[], 50);
            && IsNextVersion(Known(s), first.graphVersion)
            && var t := Run(s, [Commit(second), Commit(first)]);
               1 in History(t) && History(t)[1] == first
  {
    var s := StoreState(None, None, [], map[], map[], 50);
    CommitWrites(s, second);
    CommitWrites(Committed(s, second), first);
    var ops := [Commit(second), Commit(first)];
    assert ops[1..] == [Commit(first)] && [Commit(first)][1..] == [];
    var t := Step(s, Commit(second));
    assert Run(s, ops) == Run(t, [Commit(first)]) == Run(Step(t, Commit(first)), []);
  }

  /** `next_version` is above every number ever committed, so staging and committing at once is fresh. */
  lemma NextVersionFresh(s: StoreState, ops: seq<StoreOp>, v: int)
    requires Consistent(s) && ArchiveLogged(s)
    requires IsNextVersion(Known(Run(s, ops)), v)
    ensures v !in Known(s) && forall w :: w in Known(s) ==> w < v
    ensures forall w :: w in CommittedIn(ops) ==> w < v
  {
    RunHistory(s, ops);
    KnownIsHistory(s);
    KnownIsHistory(Run(s, ops));
    assert forall w :: w in Known(s) || w in CommittedIn(ops) ==> w in Known(Run(s, ops));
  }

  // ---------------------------------------------------- commit and roll back

  /**
   * Rolling back right after a commit brings back the version that was active
   * and its snapshot, retired in between or not, exactly when the commit did
   * not overwrite that version with something else.
   */
  lemma CommitThenRollback(s: StoreState, g: GraphSnapshot)
    requires Consistent(s) && s.active.Some?
    ensures var t := Committed(s, g);
            && CanRollBack(t)
            && RolledBack(t).active == s.active
            && RolledBack(t).rollback == None
            && RolledBack(t).live[s.active.value] == RollbackSnapshot(t)
            && (RollbackSnapshot(t) == s.live[s.active.value]
                <==> (g.graphVersion == s.active.value ==> g == s.live[s.active.value]))
            && History(RolledBack(t)) == History(s)[g.graphVersion := g]
  {
    var t := Committed(s, g);
    var a := s.active.value;
    RetiredKeeps(Promoted(s, g));
    CommitWrites(s, g);
    CommitConsistent(s, g);
    assert a in Known(t);
    assert RollbackSnapshot(t) == History(t)[a];
    assert a in History(s) && History(s)[a] == s.live[a];
    RollBackHistory(t);
  }

  /** A commit always remembers the version it replaces, so the runtime's own check of that never fails. */
  lemma RollbackTargetKept(s: StoreState, g: GraphSnapshot)
    ensures s.active.Some? ==> Committed(s, g).rollback == s.active
  {
    RetiredKeeps(Promoted(s, g));
  }

  // ----------------------------------------------------- who survives retirement

  /** Live versions below `a` that retirement may archive before it. */
  function Older(s: StoreState, a: int): set<int> {
    set v | v in s.live && v < a && v !in ActiveVersions(s)
  }

  /**
   * An inactive live version stays live exactly when retention is off or the window is exceeded by
   * no more than there are older inactive versions to archive first.
   */
  lemma {:induction false} StaysLiveExactly(s: StoreState, a: int)
    requires a in s.live && a !in ActiveVersions(s)
    ensures a in Retired(s).live <==> s.retention <= 0 || |s.live| - s.retention <= |Older(s, a)|
    decreases |s.live|
  {
    assert a in s.live.Keys - ActiveVersions(s);
    if !MustRetire(s) {
    } else {
      var v := Lowest(s.live.Keys - ActiveVersions(s));
      var t := Archive(s, v);
      Archived1(s, v);
      OlderThanLowest(s, v, a);
      if v == a {
        RetiredKeepsLive(t);
      } else {
        StaysLiveExactly(t, a);
      }
    }
  }

  lemma OlderThanLowest(s: StoreState, v: int, a: int)
    requires IsLowest(v, s.live.Keys - ActiveVersions(s)) && a in s.live.Keys - ActiveVersions(s)
    ensures v == a ==> Older(s, a) == {}
    ensures v != a ==> v in Older(s, a) && Older(Archive(s, v), a) == Older(s, a) - {v}
  {
    forall w | w in s.live && w !in ActiveVersions(s) ensures v <= w {
      assert w in s.live.Keys - ActiveVersions(s);
    }
  }

  /**
   * Documentation has it that the rollback target is always kept live. After a commit it is exactly
   * when retention is off or the window is exceeded by no more than there are versions older than the
   * target; archived or not, rolling back brings it back.
   */
  lemma TargetStaysLiveExactly(s: StoreState, g: GraphSnapshot)
    requires Consistent(s) && s.active.Some? && g.graphVersion != s.active.value
    ensures var t, target := Committed(s, g), s.active.value;
            && t.rollback == Some(target)
            && (target in t.live <==>
                  s.retention <= 0
                  || |s.live.Keys + {g.graphVersion}| - s.retention
                     <= |set v | v in s.live && v < target && v != g.graphVersion|)
            && (target !in t.live ==> target in t.archived)
            && target in RolledBack(t).live
  {
    var p, target := Promoted(s, g), s.active.value;
    StaysLiveExactly(p, target);
    assert p.live.Keys == s.live.Keys + {g.graphVersion} && |p.live| == |p.live.Keys|;
    assert Older(p, target) == set v | v in s.live && v < target && v != g.graphVersion;
    CommitWrites(s, g);
    RollbackTargetKept(s, g);
    assert target in Known(Committed(s, g));
  }

  /** With a window of one every commit archives its target. */
  lemma WindowOfOneArchivesTarget(s: StoreState, g: GraphSnapshot)
    requires Consistent(s) && s.active.Some? && s.retention == 1 && g.graphVersion != s.active.value
    ensures s.active.value in Committed(s, g).archived && s.active.value !in Committed(s, g).live
  {
    TargetStaysLiveExactly(s, g);
    CommitConsistent(s, g);
    CommitWrites(s, g);
    if s.active.value in Committed(s, g).live {
      TwoMembers(Committed(s, g).live.Keys, s.active.value, g.graphVersion);
    }
  }

  lemma TwoMembers(versions: set<int>, a: int, b: int)
    requires a in versions && b in versions && a != b
    ensures |versions| >= 2
  {
    var others := versions - {a};
    assert b in others && |versions| == |others| + 1;
    assert |others| == |others - {b}| + 1;
  }

  /** And so may a larger window: two commits, a roll-back and a third commit, with a window of two. */
  lemma WindowOfTwoArchivesTarget(one: GraphSnapshot, two: GraphSnapshot, three: GraphSnapshot)
    requires one.graphVersion == 1 && two.graphVersion == 2 && three.graphVersion == 3
    ensures var s := StoreState(None, None, [], map[], map[], 2);
            var t := Committed(RolledBack(Committed(Committed(s, one), two)), three);
            t.rollback == Some(1) && 1 !in t.live && 1 in t.archived
  {
    var s := StoreState(None, None, [], map[], map[], 2);
    var s1, s2 := Committed(s, one), Committed(Committed(s, one), two);
    CommitFits(s, one);
    CommitFits(s1, two);
    assert s2.live.Keys == {1, 2};
    BackAndForth(s2, three);
  }

  /** A commit that the window has room for archives nothing. */
  lemma CommitFits(s: StoreState, g: GraphSnapshot)
    requires |s.live.Keys + {g.graphVersion}| <= s.retention
    ensures Committed(s, g) == Promoted(s, g) && Committed(s, g).live.Keys == s.live.Keys + {g.graphVersion}
  {
    assert Promoted(s, g).live.Keys == s.live.Keys + {g.graphVersion};
    assert |Promoted(s, g).live| == |Promoted(s, g).live.Keys|;
  }

  lemma BackAndForth(s: StoreState, three: GraphSnapshot)
    requires s.live.Keys == {1, 2} && s.archived == map[] && s.retention == 2
    requires s.active == Some(2) && s.rollback == Some(1) && Keyed(s.live) && three.graphVersion == 3
    ensures var t := Committed(RolledBack(s), three);
            t.rollback == Some(1) && 1 !in t.live && 1 in t.archived
  {
    var back := RolledBack(s);
    BackToOne(s);
    TargetStaysLiveExactly(back, three);
    NoneOlderThanOne(back.live.Keys);
  }

  lemma BackToOne(s: StoreState)
    requires s.live.Keys == {1, 2} && s.archived == map[] && s.retention == 2
    requires s.active == Some(2) && s.rollback == Some(1) && Keyed(s.live)
    ensures var back := RolledBack(s);
            Consistent(back) && back.active == Some(1) && back.live.Keys == {1, 2} && back.retention == 2
  {
    var back := RolledBack(s);
    assert back.live.Keys == {1, 2};
    assert |back.live| == |back.live.Keys|;
  }

  lemma NoneOlderThanOne(versions: set<int>)
    requires versions == {1, 2}
    ensures (set v | v in versions && v < 1 && v != 3) == {} && |versions + {3}| == 3
  {
    assert versions + {3} == {1, 2, 3};
  }

  /** A second roll-back without a commit in between changes nothing. */
  lemma RollbackOnce(s: StoreState)
    ensures RolledBack(RolledBack(s)) == RolledBack(s)
  {
  }
}
