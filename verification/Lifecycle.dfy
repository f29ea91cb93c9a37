/** Component phases and the transitions the tracker enforces. */
module Lifecycle {
  import opened Ids
  import opened Models

  datatype Phase =
    | Discovered
    | ValidatedStatic
    | Assembled
    | ValidatedDynamic
    | Activated
    | Committed
    | Failed
    | Suspended

  type Phases = map<Id, Phase>

  function AllowedNext(p: Phase): set<Phase> {
    match p
    case Discovered => {ValidatedStatic, Failed}
    case ValidatedStatic => {Assembled, Failed}
    case Assembled => {ValidatedDynamic, Failed}
    case ValidatedDynamic => {Activated, Failed}
    case Activated => {Phase.Committed, Suspended, Failed}
    case Committed => {Suspended, Failed}
    case Suspended => {Activated, Failed}
    case Failed => {}
  }

  predicate Legal(phases: Phases, c: Id, p: Phase) {
    c in phases ==> phases[c] == p || p in AllowedNext(phases[c])
  }

  class LifecycleTracker {
    var phases: Phases

    constructor ()
      ensures phases == map[]
    {
      phases := map[];
    }

    /** False for an illegal transition: the call raises and changes nothing. */
    method Record(c: Id, p: Phase) returns (ok: bool)
      modifies this
      ensures ok <==> Legal(old(phases), c, p)
      ensures phases == if ok then old(phases)[c := p] else old(phases)
    {
      if c !in phases {
        phases := phases[c := p];
        return true;
      }
      if phases[c] == p {
        assert phases[c := p] == phases;
        return true;
      }
      if p !in AllowedNext(phases[c]) {
        return false;
      }
      phases := phases[c := p];
      ok := true;
    }

    method Reset(c: Id)
      modifies this
      ensures phases == old(phases) - {c}
    {
      phases := phases - {c};
    }
  }

  // ------------------------------------------------------------ legal paths

  const STAGES := [Discovered, ValidatedStatic, Assembled, ValidatedDynamic, Activated, Phase.Committed]

  /** Phases are gone through stage by stage; whatever runs may be suspended and activated again, and all may fail. */
  lemma AllowedExactly(p: Phase, q: Phase)
    ensures q in AllowedNext(p) <==>
              || (exists k :: 0 <= k < 5 && STAGES[k] == p && STAGES[k + 1] == q)
              || (p in {Activated, Phase.Committed} && q == Suspended) || (p == Suspended && q == Activated)
              || (p != Failed && q == Failed)
  {
    assert STAGES[0] == Discovered && STAGES[1] == ValidatedStatic && STAGES[2] == Assembled;
    assert STAGES[3] == ValidatedDynamic && STAGES[4] == Activated && STAGES[5] == Phase.Committed;
  }

  /** A list of phases a tracked component may go through. */
  predicate LegalPath(path: seq<Phase>) {
    path != [] && forall i, j :: 0 <= i && j == i + 1 < |path| ==> path[i] == path[j] || path[j] in AllowedNext(path[i])
  }

  /** Failure is final: no legal path leaves it. */
  lemma {:induction false} FailedIsFinal(path: seq<Phase>, k: nat)
    requires LegalPath(path) && k < |path| && path[k] == Failed
    ensures forall j :: k <= j < |path| ==> path[j] == Failed
    decreases |path| - k
  {
    if k + 1 >= |path| {
    } else {
      assert path[k + 1] == Failed;
      FailedIsFinal(path, k + 1);
    }
  }

  /** A component that starts before activation is committed only after it was activated. */
  lemma {:induction false} CommittedWasActivated(path: seq<Phase>)
    requires LegalPath(path)
    requires path[0] in {Discovered, ValidatedStatic, Assembled, ValidatedDynamic}
    requires path[|path| - 1] in {Phase.Committed, Suspended}
    ensures exists i :: 0 <= i < |path| - 1 && path[i] == Activated
  {
    if |path| < 2 {
    } else {
      var i, j := |path| - 2, |path| - 1;
      assert path[i] == path[j] || path[j] in AllowedNext(path[i]);
      if path[i] != Activated {
        assert path[i] in {Phase.Committed, Suspended};
        CommittedWasActivated(path[..j]);
        var k :| 0 <= k < |path[..j]| - 1 && path[..j][k] == Activated;
        assert path[k] == Activated;
      }
    }
  }
}
