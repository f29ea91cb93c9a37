/** The version store: live and archived snapshots, the active pointer and the rollback slot. */
module GraphVersions {
  import opened Ids
  import opened Models

  datatype CandidateRecord = CandidateRecord(
    candidateId: string, snapshot: GraphSnapshot, report: ValidationReport, promoted: bool, deferred: bool)

  datatype StoreState = StoreState(
    active: Option<int>,
    rollback: Option<int>,
    archivedVersions: seq<int>,
    live: map<int, GraphSnapshot>,
    archived: map<int, GraphSnapshot>,
    retention: int)

  // --------------------------------------------------------- what steps do

  function Known(s: StoreState): set<int> {
    s.live.Keys + s.archived.Keys
  }

  /** Every snapshot the store can still produce, by version. */
  function History(s: StoreState): map<int, GraphSnapshot> {
    s.archived + s.live
  }

  ghost predicate IsLowest(v: int, versions: set<int>) {
    v in versions && forall w :: w in versions ==> v <= w
  }

  lemma NoMember(versions: set<int>)
    requires forall v :: v !in versions
    ensures versions == {}
  {
    if versions != {} { Inhabited(versions); }
  }

  lemma Inhabited(versions: set<int>)
    requires versions != {}
    ensures exists v :: v in versions
  {
    if forall v :: v !in versions { assert false; }
  }

  lemma {:induction false} LowestExists(versions: set<int>)
    requires versions != {}
    ensures exists v :: IsLowest(v, versions)
    decreases |versions|
  {
    Inhabited(versions);
    var v :| v in versions;
    var rest := versions - {v};
    assert forall w :: w in versions ==> w == v || w in rest;
    if rest == {} {
      assert IsLowest(v, versions);
    } else {
      LowestExists(rest);
      var w :| IsLowest(w, rest);
      var lowest := if v < w then v else w;
      assert IsLowest(lowest, versions);
    }
  }

  ghost function Lowest(versions: set<int>): (v: int)
    requires versions != {}
    ensures IsLowest(v, versions)
  {
    LowestExists(versions);
    var v :| IsLowest(v, versions);
    v
  }

  lemma LowestUnique(v: int, versions: set<int>)
    requires IsLowest(v, versions)
    ensures versions != {} && Lowest(versions) == v
  {
  }

  function ActiveVersions(s: StoreState): set<int> {
    if s.active.Some? then {s.active.value} else {}
  }

  function Archive(s: StoreState, v: int): StoreState
    requires v in s.live
  {
    s.(live := s.live - {v},
       archived := s.archived[v := s.live[v]],
       archivedVersions := if v in s.archivedVersions then s.archivedVersions else s.archivedVersions + [v])
  }

  /** Whether the retention window is exceeded and something may still be archived. */
  predicate MustRetire(s: StoreState) {
    0 < s.retention < |s.live| && s.live.Keys - ActiveVersions(s) != {}
  }

  /** Archive the oldest inactive snapshots until the window fits. */
  ghost function Retired(s: StoreState): StoreState
    decreases |s.live|
  {
    if MustRetire(s) then
      var v := Lowest(s.live.Keys - ActiveVersions(s));
      Archived1(s, v);
      Retired(Archive(s, v))
    else s
  }

  lemma Archived1(s: StoreState, v: int)
    requires v in s.live
    ensures |Archive(s, v).live| == |s.live| - 1
    ensures Archive(s, v).live.Keys == s.live.Keys - {v}
  {
    assert Archive(s, v).live.Keys == s.live.Keys - {v};
  }

  function Promoted(s: StoreState, g: GraphSnapshot): StoreState {
    s.(rollback := if s.active.Some? then s.active else s.rollback,
       live := s.live[g.graphVersion := g],
       active := Some(g.graphVersion))
  }

  ghost function Committed(s: StoreState, g: GraphSnapshot): StoreState {
    Retired(Promoted(s, g))
  }

  predicate CanRollBack(s: StoreState) {
    s.rollback.Some? && s.rollback.value in Known(s)
  }

  function RollbackSnapshot(s: StoreState): GraphSnapshot
    requires CanRollBack(s)
  {
    if s.rollback.value in s.live then s.live[s.rollback.value] else s.archived[s.rollback.value]
  }

  /** Without a usable rollback slot the call raises and changes nothing. */
  function RolledBack(s: StoreState): StoreState {
    if CanRollBack(s) then
      s.(live := s.live[s.rollback.value := RollbackSnapshot(s)],
         archived := s.archived - {s.rollback.value},
         active := s.rollback,
         rollback := None)
    else s
  }

  ghost function RetiredTo(s: StoreState, keep: int): StoreState {
    Retired(s.(retention := if keep < 0 then 0 else keep))
  }

  /** `v` is the number `next_version` hands out. */
  ghost predicate IsNextVersion(known: set<int>, v: int) {
    if known == {} then v == 1 else v - 1 in known && forall k :: k in known ==> k < v
  }

  // ------------------------------------------------------ candidate records

  /** The record `update_candidate` replaces: the first of that id. */
  function FirstWith(candidates: seq<CandidateRecord>, id: string): (k: nat)
    ensures k <= |candidates|
    ensures k < |candidates| ==> candidates[k].candidateId == id
    ensures forall j :: 0 <= j < k ==> candidates[j].candidateId != id
  {
    if candidates == [] || candidates[0].candidateId == id then 0 else 1 + FirstWith(candidates[1..], id)
  }

  function Updated(candidates: seq<CandidateRecord>, c: CandidateRecord): seq<CandidateRecord> {
    var k := FirstWith(candidates, c.candidateId);
    if k < |candidates| then candidates[k := c] else candidates + [c]
  }

  /** Every other record stays; the first of the id, or a place behind them all, takes the new one. */
  lemma UpdatedExactly(candidates: seq<CandidateRecord>, c: CandidateRecord)
    ensures var updated := Updated(candidates, c);
            var known := exists j :: 0 <= j < |candidates| && candidates[j].candidateId == c.candidateId;
            && |updated| == (if known then |candidates| else |candidates| + 1)
            && (!known ==> updated[|candidates|] == c)
            && forall j :: 0 <= j < |candidates| ==>
                 updated[j] == if IsFirstWith(candidates, c.candidateId, j) then c else candidates[j]
  {
    var k := FirstWith(candidates, c.candidateId);
    assert forall j :: IsFirstWith(candidates, c.candidateId, j) <==> j == k < |candidates|;
  }

  predicate IsFirstWith(candidates: seq<CandidateRecord>, id: string, k: int) {
    && 0 <= k < |candidates| && candidates[k].candidateId == id
    && forall j :: 0 <= j < k ==> candidates[j].candidateId != id
  }

  /** The record a deferred review picks: the last deferred one of that id. */
  predicate IsLastDeferred(candidates: seq<CandidateRecord>, id: string, k: int) {
    && 0 <= k < |candidates| && candidates[k].candidateId == id && candidates[k].deferred
    && forall j :: k < j < |candidates| ==> !(candidates[j].candidateId == id && candidates[j].deferred)
  }

  /**
   * A review settles the record it picked exactly when no earlier record has
   * the same id; otherwise another record is overwritten and the picked one
   * stays deferred, to be picked again.
   */
  lemma ReviewSettles(candidates: seq<CandidateRecord>, id: string, k: int, settled: CandidateRecord)
    requires IsLastDeferred(candidates, id, k)
    requires settled.candidateId == id && !settled.deferred
    ensures (forall j :: 0 <= j < k ==> candidates[j].candidateId != id)
            <==> !IsLastDeferred(Updated(candidates, settled), id, k)
  {
    var f := FirstWith(candidates, id);
    assert f <= k;
  }

  // ------------------------------------------------------------- the store

  class GraphVersionStore {
    var active: Option<int>
    var rollback: Option<int>
    var archivedVersions: seq<int>
    var snapshots: map<int, GraphSnapshot>
    var archived: map<int, GraphSnapshot>
    var candidates: seq<CandidateRecord>
    var retention: int

    constructor (retention: int := 50)
      ensures State() == StoreState(None, None, [], map[], map[], retention)
      ensures candidates == []
    {
      active, rollback, archivedVersions := None, None, [];
      snapshots, archived, candidates := map[], map[], [];
      this.retention := retention;
    }

    function State(): StoreState
      reads this
    {
      StoreState(active, rollback, archivedVersions, snapshots, archived, retention)
    }

    method NextVersion() returns (v: int)
      ensures IsNextVersion(Known(State()), v)
    {
      var known := snapshots.Keys + archived.Keys;
      if known == {} {
        return 1;
      }
      Inhabited(known);
      var newest :| newest in known;
      var pending := known - {newest};
      while pending != {}
        invariant pending <= known && newest in known
        invariant forall k :: k in known - pending ==> k <= newest
        decreases pending
      {
        Inhabited(pending);
        var k :| k in pending;
        assert forall j :: j in known - (pending - {k}) ==> j == k || j in known - pending;
        pending := pending - {k};
        if newest < k {
          newest := k;
        }
      }
      assert known - pending == known;
      v := newest + 1;
    }

    method SaveCandidate(candidate: CandidateRecord)
      modifies this`candidates
      ensures candidates == old(candidates) + [candidate]
    {
      candidates := candidates + [candidate];
    }

    method UpdateCandidate(c: CandidateRecord)
      modifies this`candidates
      ensures candidates == Updated(old(candidates), c)
    {
      for k := 0 to |candidates|
        invariant forall j :: 0 <= j < k ==> candidates[j].candidateId != c.candidateId
        invariant candidates == old(candidates)
      {
        if candidates[k].candidateId == c.candidateId {
          assert FirstWith(candidates, c.candidateId) == k;
          candidates := candidates[k := c];
          return;
        }
      }
      candidates := candidates + [c];
    }

    /** The index of the last deferred record of that id, or -1. */
    method LastDeferred(id: string) returns (k: int)
      ensures k >= 0 ==> IsLastDeferred(candidates, id, k)
      ensures k < 0 <==> forall j :: 0 <= j < |candidates| ==>
                !(candidates[j].candidateId == id && candidates[j].deferred)
    {
      k := |candidates| - 1;
      while k >= 0 && !(candidates[k].candidateId == id && candidates[k].deferred)
        invariant -1 <= k < |candidates|
        invariant forall j :: k < j < |candidates| ==> !(candidates[j].candidateId == id && candidates[j].deferred)
      {
        k := k - 1;
      }
    }

    method Commit(g: GraphSnapshot)
      modifies this
      ensures State() == Committed(old(State()), g)
      ensures candidates == old(candidates)
    {
      var previous := active;
      if previous.Some? {
        rollback := previous;
      }
      snapshots := snapshots[g.graphVersion := g];
      active := Some(g.graphVersion);
      Retire();
    }

    method Rollback() returns (r: Option<GraphSnapshot>)
      modifies this
      ensures State() == RolledBack(old(State()))
      ensures r == if CanRollBack(old(State())) then Some(RollbackSnapshot(old(State()))) else None
      ensures candidates == old(candidates)
    {
      if rollback.None? {
        return None;
      }
      var version := rollback.value;
      if version !in snapshots && version !in archived {
        return None;
      }
      var g := if version in snapshots then snapshots[version] else archived[version];
      snapshots := snapshots[version := g];
      archived := archived - {version};
      active := Some(version);
      rollback := None;
      r := Some(g);
    }

    method Retire()
      modifies this
      ensures State() == Retired(old(State()))
      ensures candidates == old(candidates)
    {
      if retention <= 0 {
        return;
      }
      var live := SortedVersions(snapshots.Keys);
      ghost var goal := Retired(State());
      while |live| > retention
        invariant retention == old(retention) > 0 && active == old(active)
        invariant Lists(live, snapshots.Keys)
        invariant Retired(State()) == goal
        invariant candidates == old(candidates)
        decreases |live|
      {
        var k := FirstUnprotected(live, ActiveVersions(State()));
        FirstIsLowest(live, snapshots.Keys, ActiveVersions(State()), k);
        if k == |live| {
          assert !MustRetire(State());
          break;
        }
        DropListed(live, snapshots.Keys, k);
        ghost var before := State();
        Archived1(before, live[k]);
        assert MustRetire(before);
        LowestUnique(live[k], before.live.Keys - ActiveVersions(before));
        MoveToArchive(live[k]);
        live := live[..k] + live[k + 1..];
      }
    }

    method MoveToArchive(victim: int)
      requires victim in snapshots
      modifies this
      ensures State() == Archive(old(State()), victim)
      ensures candidates == old(candidates)
    {
      archived := archived[victim := snapshots[victim]];
      snapshots := snapshots - {victim};
      if victim !in archivedVersions {
        archivedVersions := archivedVersions + [victim];
      }
    }

    method RetireTo(keep: int)
      modifies this
      ensures State() == RetiredTo(old(State()), keep)
      ensures candidates == old(candidates)
    {
      retention := if keep < 0 then 0 else keep;
      Retire();
    }
  }

  // ------------------------------------------------- sorted version lists

  predicate Increasing(s: seq<int>) {
    forall i, j :: 0 <= i < j < |s| ==> s[i] < s[j]
  }

  /** `s` is `sorted(versions)`. */
  ghost predicate Lists(s: seq<int>, versions: set<int>) {
    Increasing(s) && |s| == |versions| && forall v :: v in s <==> v in versions
  }

  method SortedVersions(versions: set<int>) returns (r: seq<int>)
    ensures Lists(r, versions)
  {
    r := [];
    var pending := versions;
    while pending != {}
      invariant pending <= versions && Increasing(r)
      invariant forall v :: v in r <==> v in versions - pending
      invariant forall i, v :: 0 <= i < |r| && v in pending ==> r[i] < v
      decreases pending
    {
      LowestExists(pending);
      var v :| v in pending && forall w :: w in pending ==> v <= w;
      r := r + [v];
      pending := pending - {v};
    }
    AscendingLength(r, versions);
  }

  method FirstUnprotected(live: seq<int>, protected: set<int>) returns (k: nat)
    ensures k <= |live| && forall j :: 0 <= j < k ==> live[j] in protected
    ensures k < |live| ==> live[k] !in protected
  {
    k := 0;
    while k < |live| && live[k] in protected
      invariant k <= |live|
      invariant forall j :: 0 <= j < k ==> live[j] in protected
    {
      k := k + 1;
    }
  }

  lemma FirstIsLowest(live: seq<int>, versions: set<int>, protected: set<int>, k: nat)
    requires Lists(live, versions)
    requires k <= |live| && forall j :: 0 <= j < k ==> live[j] in protected
    requires k < |live| ==> live[k] !in protected
    ensures k < |live| ==> IsLowest(live[k], versions - protected)
    ensures k == |live| ==> versions - protected == {}
  {
    forall w | w in versions - protected ensures exists j :: k <= j < |live| && live[j] == w {
      assert w in live;
    }
    if k == |live| && versions - protected != {} {
      Inhabited(versions - protected);
    }
  }

  lemma DropListed(live: seq<int>, versions: set<int>, k: nat)
    requires Lists(live, versions) && k < |live|
    ensures Lists(live[..k] + live[k + 1..], versions - {live[k]})
  {
    assert live[k] in live;
    forall v ensures v in live[..k] + live[k + 1..] <==> v in versions - {live[k]} {
      DroppedMember(live, k, v);
    }
    DroppedIncreasing(live, k);
  }

  lemma DroppedMember(live: seq<int>, k: nat, v: int)
    requires Increasing(live) && k < |live|
    ensures v in live[..k] + live[k + 1..] <==> v in live && v != live[k]
  {
    assert live == live[..k] + [live[k]] + live[k + 1..];
    assert live[k] !in live[..k] && live[k] !in live[k + 1..];
  }

  lemma DroppedIncreasing(live: seq<int>, k: nat)
    requires Increasing(live) && k < |live|
    ensures Increasing(live[..k] + live[k + 1..])
  {
    var rest := live[..k] + live[k + 1..];
    assert forall j :: 0 <= j < |rest| ==> rest[j] == live[if j < k then j else j + 1];
  }

  lemma {:induction false} AscendingLength(s: seq<int>, versions: set<int>)
    requires Increasing(s) && forall v :: v in s <==> v in versions
    ensures |s| == |versions|
    decreases |s|
  {
    if s != [] {
      var last := s[|s| - 1];
      assert s == s[..|s| - 1] + [last];
      assert forall v :: v in s <==> v == last || v in s[..|s| - 1];
      AscendingLength(s[..|s| - 1], versions - {last});
    } else {
      NoMember(versions);
    }
  }
}
