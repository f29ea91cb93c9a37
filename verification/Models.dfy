/** Graph snapshots, validation reports and what the registry declares. */
module Models {
  import opened Ids

  datatype Option<+T> = None | Some(value: T)

  datatype RouteMode = SyncMode | AsyncMode | EventMode | ShadowMode

  datatype ConnectionPolicy = RequiredPolicy | OptionalPolicy | ShadowPolicy

  datatype ComponentNode = ComponentNode(componentId: Id, componentType: string, protected: bool)

  datatype ConnectionEdge = ConnectionEdge(
    connectionId: Id, source: string, target: string, payload: string, mode: RouteMode, policy: ConnectionPolicy)

  datatype GraphSnapshot = GraphSnapshot(graphVersion: int, nodes: seq<ComponentNode>, edges: seq<ConnectionEdge>)

  datatype PendingConnectionSet = PendingConnectionSet(nodes: seq<ComponentNode>, edges: seq<ConnectionEdge>)

  // -------------------------------------------------------------- reports

  datatype IssueCode =
    | DuplicateConnection
    | UnknownComponent
    | UnknownSourceComponent
    | UnknownTargetComponent
    | UnknownOutputPort
    | UnknownInputPort
    | PayloadMismatch
    | MissingRequiredInput
    | ProtectedSlotOverride
    | ProtectedComponentRemoved
    | ProtectedBoundaryViolation
    | CycleDetected
    | OrphanComponent
    | MissingRouteHandler
    | ComponentNotReady
    | ProtectedAuthorizationRequired

  datatype IssueCategory = Semantic | ProtectedComponent | Readiness | PromotionBlocker

  datatype ValidationIssue = ValidationIssue(
    code: IssueCode, subject: string, category: IssueCategory, blocksPromotion: bool)

  datatype ValidationReport = ValidationReport(valid: bool, issues: seq<ValidationIssue>)

  // ------------------------------------------------------- declarations

  datatype InputPort = InputPort(name: string, payloadType: string, required: bool)

  datatype OutputPort = OutputPort(name: string, payloadType: string)

  datatype EventPort = EventPort(name: string, payloadType: string)

  datatype SlotIntent = SlotIntent(slot: string, primary: bool)

  datatype RegisteredComponent = RegisteredComponent(
    inputs: seq<InputPort>, outputs: seq<OutputPort>, events: seq<EventPort>, slots: seq<SlotIntent>,
    protected: bool)

  /** What components declare: fixed while graphs are promoted. */
  datatype Catalogue = Catalogue(components: map<Id, RegisteredComponent>, slotBindings: map<string, seq<Id>>) {
    predicate IsProtected(c: Id) {
      c in components && components[c].protected
    }
  }

  /** The registry: declarations plus the graphs the engine publishes. */
  class ComponentRegistry {
    var catalogue: Catalogue
    var activeGraph: Option<GraphSnapshot>
    var candidateGraph: Option<GraphSnapshot>
    var graphVersions: seq<int>

    constructor (catalogue: Catalogue)
      ensures this.catalogue == catalogue
      ensures activeGraph.None? && candidateGraph.None? && graphVersions == []
    {
      this.catalogue := catalogue;
      activeGraph, candidateGraph, graphVersions := None, None, [];
    }

    method RecordGraphVersion(version: int)
      modifies this`graphVersions
      ensures graphVersions == old(graphVersions) + [version]
    {
      graphVersions := graphVersions + [version];
    }
  }
}
