/** Port lookup and the public route table, and how they relate to the engine's compiled table. */
module PortIndex {
  import opened Ids
  import opened Models
  import opened GraphShape
  import opened Routing

  datatype PortDirection = Input | Output | EventPortDirection

  datatype PortRef = PortRef(componentId: Id, port: string, payloadType: string, direction: PortDirection) {
    function Fqid(): string { Join(componentId, port) }
  }

  // ----------------------------------------------------------- specification

  function InputRefs(c: Id, ports: seq<InputPort>): seq<PortRef> {
    seq(|ports|, i requires 0 <= i < |ports| => PortRef(c, ports[i].name, ports[i].payloadType, Input))
  }

  function OutputRefs(c: Id, ports: seq<OutputPort>): seq<PortRef> {
    seq(|ports|, i requires 0 <= i < |ports| => PortRef(c, ports[i].name, ports[i].payloadType, Output))
  }

  function EventRefs(c: Id, ports: seq<EventPort>): seq<PortRef> {
    seq(|ports|, i requires 0 <= i < |ports| => PortRef(c, ports[i].name, ports[i].payloadType, EventPortDirection))
  }

  function RefsOf(c: Id, r: RegisteredComponent): seq<PortRef> {
    InputRefs(c, r.inputs) + OutputRefs(c, r.outputs) + EventRefs(c, r.events)
  }

  /** The component declares this port, in that direction and with that payload type. */
  predicate Declares(r: RegisteredComponent, p: PortRef) {
    match p.direction
    case Input => exists q :: q in r.inputs && q.name == p.port && q.payloadType == p.payloadType
    case Output => OutputPort(p.port, p.payloadType) in r.outputs
    case EventPortDirection => EventPort(p.port, p.payloadType) in r.events
  }

  lemma RefsOfExactly(c: Id, r: RegisteredComponent, p: PortRef)
    ensures p in RefsOf(c, r) <==> p.componentId == c && Declares(r, p)
  {
    var refs := RefsOf(c, r);
    assert p in refs <==> p in InputRefs(c, r.inputs) || p in OutputRefs(c, r.outputs) || p in EventRefs(c, r.events);
    if p.componentId == c && Declares(r, p) {
      match p.direction
      case Input =>
        var q :| q in r.inputs && q.name == p.port && q.payloadType == p.payloadType;
        var i :| 0 <= i < |r.inputs| && r.inputs[i] == q;
        assert InputRefs(c, r.inputs)[i] == p;
      case Output =>
        var i :| 0 <= i < |r.outputs| && r.outputs[i] == OutputPort(p.port, p.payloadType);
        assert OutputRefs(c, r.outputs)[i] == p;
      case EventPortDirection =>
        var i :| 0 <= i < |r.events| && r.events[i] == EventPort(p.port, p.payloadType);
        assert EventRefs(c, r.events)[i] == p;
    }
  }

  /** The order in which components were registered. */
  ghost predicate RegistrationOrder(cat: Catalogue, order: seq<Id>) {
    (forall c :: c in order <==> c in cat.components) && forall i, j :: 0 <= i < j < |order| ==> order[i] != order[j]
  }

  ghost function AllRefs(cat: Catalogue, order: seq<Id>): seq<PortRef>
    requires forall c :: c in order ==> c in cat.components
  {
    if order == [] then []
    else
      var last := order[|order| - 1];
      assert last in order;
      AllRefs(cat, order[..|order| - 1]) + RefsOf(last, cat.components[last])
  }

  /** All references together are all declared ports of these components. */
  lemma {:induction false} AllRefsExactly(cat: Catalogue, order: seq<Id>)
    requires forall c :: c in order ==> c in cat.components
    ensures forall p :: p in AllRefs(cat, order) <==>
              p.componentId in order && Declares(cat.components[p.componentId], p)
  {
    if order == [] {
    } else {
      var init, last := order[..|order| - 1], order[|order| - 1];
      assert order == init + [last];
      AllRefsExactly(cat, init);
      forall p ensures p in RefsOf(last, cat.components[last])
                  <==> p.componentId == last && Declares(cat.components[last], p)
      {
        RefsOfExactly(last, cat.components[last], p);
      }
    }
  }

  /** Later declarations of the same name replace earlier ones. */
  ghost function Indexed(refs: seq<PortRef>): map<string, PortRef> {
    if refs == [] then map[]
    else
      var last := refs[|refs| - 1];
      Indexed(refs[..|refs| - 1])[last.Fqid() := last]
  }

  lemma {:induction false} IndexedSound(refs: seq<PortRef>)
    ensures forall f :: f in Indexed(refs) ==> Indexed(refs)[f] in refs && Indexed(refs)[f].Fqid() == f
    ensures forall r :: r in refs ==> r.Fqid() in Indexed(refs)
  {
    if refs == [] {
    } else {
      IndexedSound(refs[..|refs| - 1]);
      assert refs == refs[..|refs| - 1] + [refs[|refs| - 1]];
    }
  }

  predicate LastWithFqid(refs: seq<PortRef>, fqid: string, i: int) {
    0 <= i < |refs| && refs[i].Fqid() == fqid && forall j :: i < j < |refs| ==> refs[j].Fqid() != fqid
  }

  /** Under a qualified id stands the last reference that has it. */
  lemma {:induction false} IndexedHoldsLast(refs: seq<PortRef>, fqid: string)
    ensures fqid in Indexed(refs) <==> exists r :: r in refs && r.Fqid() == fqid
    ensures fqid in Indexed(refs) ==> exists i :: LastWithFqid(refs, fqid, i) && Indexed(refs)[fqid] == refs[i]
  {
    if refs == [] {
    } else {
      var init, last := refs[..|refs| - 1], refs[|refs| - 1];
      assert refs == init + [last];
      IndexedHoldsLast(init, fqid);
      if last.Fqid() == fqid {
        assert LastWithFqid(refs, fqid, |init|);
      } else if fqid in Indexed(init) {
        var i :| LastWithFqid(init, fqid, i) && Indexed(init)[fqid] == init[i];
        assert LastWithFqid(refs, fqid, i) && refs[i] == init[i];
      }
    }
  }

  lemma IndexedOneMore(refs: seq<PortRef>, ref: PortRef)
    ensures Indexed(refs + [ref]) == Indexed(refs)[ref.Fqid() := ref]
  {
    assert (refs + [ref])[..|refs|] == refs;
  }

  /** The references of one component in one direction, in order. */
  ghost function Pick(refs: seq<PortRef>, c: Id, d: PortDirection): seq<PortRef> {
    if refs == [] then []
    else
      var last := refs[|refs| - 1];
      Pick(refs[..|refs| - 1], c, d) + (if last.componentId == c && last.direction == d then [last] else [])
  }

  lemma {:induction false} PickExact(refs: seq<PortRef>, c: Id, d: PortDirection)
    ensures forall r :: r in Pick(refs, c, d) <==> r in refs && r.componentId == c && r.direction == d
  {
    if refs == [] {
    } else {
      PickExact(refs[..|refs| - 1], c, d);
      assert refs == refs[..|refs| - 1] + [refs[|refs| - 1]];
    }
  }

  type Buckets = map<Id, seq<PortRef>>

  function Bucket(b: Buckets, c: Id): seq<PortRef> {
    if c in b then b[c] else []
  }

  ghost predicate Sorts(b: Buckets, refs: seq<PortRef>, d: PortDirection) {
    forall c :: Bucket(b, c) == Pick(refs, c, d)
  }

  function Put(b: Buckets, ref: PortRef): Buckets {
    b[ref.componentId := Bucket(b, ref.componentId) + [ref]]
  }

  lemma SortsOneMore(b: Buckets, refs: seq<PortRef>, d: PortDirection, ref: PortRef)
    requires Sorts(b, refs, d)
    ensures ref.direction == d ==> Sorts(Put(b, ref), refs + [ref], d)
    ensures ref.direction != d ==> Sorts(b, refs + [ref], d)
  {
    var longer := refs + [ref];
    assert longer[..|longer| - 1] == refs;
    forall c ensures Pick(longer, c, d)
      == Bucket(b, c) + (if ref.componentId == c && ref.direction == d then [ref] else []) {
      assert Bucket(b, c) == Pick(refs, c, d);
    }
  }

  /** The four tables hold exactly these references. */
  ghost predicate Holds(byFqid: map<string, PortRef>, inputs: Buckets, outputs: Buckets, events: Buckets,
                        refs: seq<PortRef>)
  {
    && byFqid == Indexed(refs)
    && Sorts(inputs, refs, Input) && Sorts(outputs, refs, Output) && Sorts(events, refs, EventPortDirection)
  }

  function PutIf(b: Buckets, ref: PortRef, d: PortDirection): Buckets {
    if ref.direction == d then Put(b, ref) else b
  }

  lemma HoldsOneMore(byFqid: map<string, PortRef>, inputs: Buckets, outputs: Buckets, events: Buckets,
                     refs: seq<PortRef>, ref: PortRef)
    requires Holds(byFqid, inputs, outputs, events, refs)
    ensures Holds(byFqid[ref.Fqid() := ref], PutIf(inputs, ref, Input), PutIf(outputs, ref, Output),
                  PutIf(events, ref, EventPortDirection), refs + [ref])
  {
    SortsOneMore(inputs, refs, Input, ref);
    SortsOneMore(outputs, refs, Output, ref);
    SortsOneMore(events, refs, EventPortDirection, ref);
    IndexedOneMore(refs, ref);
  }

  // ------------------------------------------------------------------ the index

  class PortIndex {
    var byFqid: map<string, PortRef>
    var inputs: Buckets
    var outputs: Buckets
    var events: Buckets
    ghost var refs: seq<PortRef>

    ghost predicate Valid() reads this {
      Holds(byFqid, inputs, outputs, events, refs)
    }

    /** Indexes every declared port of every registered component. */
    constructor FromRegistry(cat: Catalogue, order: seq<Id>)
      requires forall c :: c in order ==> c in cat.components
      ensures Valid() && refs == AllRefs(cat, order)
      ensures forall p :: p in refs <==> p.componentId in order && Declares(cat.components[p.componentId], p)
    {
      byFqid, inputs, outputs, events := map[], map[], map[], map[];
      refs := [];
      new;
      for k := 0 to |order|
        invariant Valid() && refs == AllRefs(cat, order[..k])
      {
        var c := order[k];
        assert order[..k + 1][..k] == order[..k];
        var r := cat.components[c];
        var declared := RefsOf(c, r);
        AddAll(declared);
      }
      assert order[..|order|] == order;
      AllRefsExactly(cat, order);
    }

    method AddAll(more: seq<PortRef>)
      requires Valid()
      modifies this
      ensures Valid() && refs == old(refs) + more
    {
      for k := 0 to |more|
        invariant Valid() && refs == old(refs) + more[..k]
      {
        Add(more[k]);
        assert more[..k + 1] == more[..k] + [more[k]];
      }
      assert more[..|more|] == more;
    }

    method Add(ref: PortRef)
      requires Valid()
      modifies this
      ensures Valid() && refs == old(refs) + [ref]
    {
      HoldsOneMore(byFqid, inputs, outputs, events, refs, ref);
      byFqid := byFqid[ref.Fqid() := ref];
      inputs := PutIf(inputs, ref, Input);
      outputs := PutIf(outputs, ref, Output);
      events := PutIf(events, ref, EventPortDirection);
      refs := refs + [ref];
    }

    function LookupPort(fqid: string): Option<PortRef>
      reads this
    {
      if fqid in byFqid then Some(byFqid[fqid]) else None
    }

    /** All references of a direction, bucket by bucket. */
    method AllInputs() returns (all: seq<PortRef>)
      requires Valid()
      ensures forall r :: r in all <==> r in refs && r.direction == Input
    {
      all := Flatten(inputs, refs, Input);
    }

    method AllOutputs() returns (all: seq<PortRef>)
      requires Valid()
      ensures forall r :: r in all <==> r in refs && r.direction == Output
    {
      all := Flatten(outputs, refs, Output);
    }
  }

  method Flatten(b: Buckets, ghost refs: seq<PortRef>, ghost d: PortDirection) returns (all: seq<PortRef>)
    requires Sorts(b, refs, d)
    ensures forall r :: r in all <==> r in refs && r.direction == d
  {
    all := [];
    var pending := b.Keys;
    while pending != {}
      invariant pending <= b.Keys
      invariant forall r :: r in all <==> r in refs && r.direction == d && r.componentId in b.Keys - pending
    {
      var c :| c in pending;
      PickExact(refs, c, d);
      assert Bucket(b, c) == b[c];
      all := all + b[c];
      pending := pending - {c};
    }
    forall r | r in refs && r.direction == d ensures r in all {
      PickExact(refs, r.componentId, d);
      assert r in Bucket(b, r.componentId);
    }
  }

  // ------------------------------------------------------------- the route table

  datatype RouteEntry = RouteEntry(
    connectionId: Id, source: PortRef, target: PortRef, mode: RouteMode, policy: ConnectionPolicy)

  /** `s.rsplit(".", 1)`: everything before the last dot, and the port; without a dot the whole and "". */
  function Undeclared(endpoint: string, payload: string, d: PortDirection): (r: PortRef)
    ensures r.payloadType == payload && r.direction == d && '.' !in r.port
    ensures if Dotted(endpoint) then r.componentId + "." + r.port == endpoint
            else r.componentId == endpoint && r.port == ""
  {
    JoinSplit(endpoint);
    if Dotted(endpoint) then PortRef(ComponentOf(endpoint), PortOf(endpoint), payload, d)
    else PortRef(endpoint, "", payload, d)
  }

  /** The key under which an endpoint is filed: itself when dotted, else with a dot after it. */
  function KeyOf(endpoint: string): string {
    if Dotted(endpoint) then endpoint else endpoint + "."
  }

  lemma UndeclaredKey(endpoint: string, payload: string, d: PortDirection)
    ensures Undeclared(endpoint, payload, d).Fqid() == KeyOf(endpoint)
  {
    JoinSplit(endpoint);
    assert Join(endpoint, "") == endpoint + ".";
  }

  lemma DeclaredAreDotted(refs: seq<PortRef>, f: string)
    requires f in Indexed(refs)
    ensures Dotted(f) && Indexed(refs)[f].Fqid() == f
  {
    IndexedSound(refs);
    var r := Indexed(refs)[f];
    assert r.Fqid()[|r.componentId|] == '.';
  }

  /** The entry of a connection, whichever of its endpoints are declared. */
  ghost predicate EntryFor(e: ConnectionEdge, entry: RouteEntry) {
    && entry.connectionId == e.connectionId && entry.mode == e.mode && entry.policy == e.policy
    && entry.source.Fqid() == KeyOf(e.source) && entry.target.Fqid() == KeyOf(e.target)
  }

  /** The connections filed under a source key, in edge order. */
  ghost function FiledFrom(edges: seq<ConnectionEdge>, key: string): seq<ConnectionEdge> {
    if edges == [] then []
    else
      var last := edges[|edges| - 1];
      FiledFrom(edges[..|edges| - 1], key) + (if KeyOf(last.source) == key then [last] else [])
  }

  ghost function FiledTo(edges: seq<ConnectionEdge>, key: string): seq<ConnectionEdge> {
    if edges == [] then []
    else
      var last := edges[|edges| - 1];
      FiledTo(edges[..|edges| - 1], key) + (if KeyOf(last.target) == key then [last] else [])
  }

  ghost predicate EntriesFor(edges: seq<ConnectionEdge>, entries: seq<RouteEntry>) {
    |entries| == |edges| && forall i :: 0 <= i < |edges| ==> EntryFor(edges[i], entries[i])
  }

  type Filed = map<string, seq<RouteEntry>>

  function FiledUnder(m: Filed, key: string): seq<RouteEntry> {
    if key in m then m[key] else []
  }

  ghost predicate FilesFrom(m: Filed, edges: seq<ConnectionEdge>) {
    forall key :: EntriesFor(FiledFrom(edges, key), FiledUnder(m, key))
  }

  ghost predicate FilesTo(m: Filed, edges: seq<ConnectionEdge>) {
    forall key :: EntriesFor(FiledTo(edges, key), FiledUnder(m, key))
  }

  function File(m: Filed, key: string, entry: RouteEntry): Filed {
    m[key := FiledUnder(m, key) + [entry]]
  }

  // -------------------------------------------------- which entry exactly

  /** The port an endpoint stands for: the one declared under its name, or one made up from the connection. */
  ghost function RefOf(ports: map<string, PortRef>, endpoint: string, payload: string, d: PortDirection): PortRef {
    if endpoint in ports then ports[endpoint] else Undeclared(endpoint, payload, d)
  }

  ghost function EntryOf(ports: map<string, PortRef>, e: ConnectionEdge): RouteEntry {
    RouteEntry(e.connectionId, RefOf(ports, e.source, e.payload, Output), RefOf(ports, e.target, e.payload, Input),
               e.mode, e.policy)
  }

  ghost function EntriesOf(ports: map<string, PortRef>, edges: seq<ConnectionEdge>): seq<RouteEntry> {
    seq(|edges|, i requires 0 <= i < |edges| => EntryOf(ports, edges[i]))
  }

  /** Under each key exactly the entries of the connections filed there, in edge order. */
  ghost predicate FromExactly(ports: map<string, PortRef>, m: Filed, edges: seq<ConnectionEdge>) {
    forall key :: FiledUnder(m, key) == EntriesOf(ports, FiledFrom(edges, key))
  }

  ghost predicate ToExactly(ports: map<string, PortRef>, m: Filed, edges: seq<ConnectionEdge>) {
    forall key :: FiledUnder(m, key) == EntriesOf(ports, FiledTo(edges, key))
  }

  /** A dictionary filled in edge order. */
  ghost function ById(ports: map<string, PortRef>, edges: seq<ConnectionEdge>): map<Id, RouteEntry> {
    if edges == [] then map[]
    else
      var last := edges[|edges| - 1];
      ById(ports, edges[..|edges| - 1])[last.connectionId := EntryOf(ports, last)]
  }

  /** Under each connection id stands the entry of the last connection of that id, and under no other id anything. */
  lemma {:induction false} ByIdHoldsLast(ports: map<string, PortRef>, edges: seq<ConnectionEdge>, id: Id)
    ensures id in ById(ports, edges) <==> exists e :: e in edges && e.connectionId == id
    ensures id in ById(ports, edges) ==>
              exists i :: LastOfItsId(edges, id, i) && ById(ports, edges)[id] == EntryOf(ports, edges[i])
  {
    if edges == [] {
    } else {
      var init, last := edges[..|edges| - 1], edges[|edges| - 1];
      assert edges == init + [last];
      ByIdHoldsLast(ports, init, id);
      if last.connectionId == id {
        assert LastOfItsId(edges, id, |init|) && ById(ports, edges)[id] == EntryOf(ports, edges[|init|]);
      } else if id in ById(ports, init) {
        var i :| LastOfItsId(init, id, i) && ById(ports, init)[id] == EntryOf(ports, init[i]);
        StaysLast(edges, id, i);
        assert ById(ports, edges)[id] == EntryOf(ports, edges[i]);
      }
    }
  }

  lemma StaysLast(edges: seq<ConnectionEdge>, id: Id, i: int)
    requires edges != [] && edges[|edges| - 1].connectionId != id && LastOfItsId(edges[..|edges| - 1], id, i)
    ensures LastOfItsId(edges, id, i) && edges[i] == edges[..|edges| - 1][i]
  {
    assert forall j :: 0 <= j < |edges| - 1 ==> edges[j] == edges[..|edges| - 1][j];
  }

  predicate LastOfItsId(edges: seq<ConnectionEdge>, id: Id, i: int) {
    && 0 <= i < |edges| && edges[i].connectionId == id
    && forall j :: i < j < |edges| ==> edges[j].connectionId != id
  }

  /** The port an endpoint is routed by: the last one declared under its name, else one made up in that direction. */
  ghost predicate RoutedBy(
    refs: seq<PortRef>, endpoint: string, payload: string, d: PortDirection, port: PortRef)
  {
    if exists r :: r in refs && r.Fqid() == endpoint then exists i :: LastWithFqid(refs, endpoint, i) && port == refs[i]
    else
      && port.payloadType == payload && port.direction == d
      && (Dotted(endpoint) ==> port.Fqid() == endpoint && '.' !in port.port)
      && (!Dotted(endpoint) ==> port.componentId == endpoint && port.port == "")
  }

  lemma RefIsRoutedBy(refs: seq<PortRef>, endpoint: string, payload: string, d: PortDirection)
    ensures RoutedBy(refs, endpoint, payload, d, RefOf(Indexed(refs), endpoint, payload, d))
  {
    IndexedHoldsLast(refs, endpoint);
  }

  /** The entry of a connection says what the connection says, and which ports it joins. */
  lemma EntryExactly(refs: seq<PortRef>, e: ConnectionEdge)
    ensures var entry := EntryOf(Indexed(refs), e);
            && entry.connectionId == e.connectionId && entry.mode == e.mode && entry.policy == e.policy
            && RoutedBy(refs, e.source, e.payload, Output, entry.source)
            && RoutedBy(refs, e.target, e.payload, Input, entry.target)
  {
    RefIsRoutedBy(refs, e.source, e.payload, Output);
    RefIsRoutedBy(refs, e.target, e.payload, Input);
  }

  lemma EntriesOneMore(ports: map<string, PortRef>, edges: seq<ConnectionEdge>, e: ConnectionEdge)
    ensures EntriesOf(ports, edges + [e]) == EntriesOf(ports, edges) + [EntryOf(ports, e)]
  {
  }

  lemma FiledOneMore(edges: seq<ConnectionEdge>, e: ConnectionEdge, key: string)
    ensures FiledFrom(edges + [e], key) == FiledFrom(edges, key) + (if KeyOf(e.source) == key then [e] else [])
    ensures FiledTo(edges + [e], key) == FiledTo(edges, key) + (if KeyOf(e.target) == key then [e] else [])
  {
    assert (edges + [e])[..|edges|] == edges;
  }

  /** Filing an entry under one key, seen from any key. */
  lemma FiledOneMoreUnder(m: Filed, at: string, entry: RouteEntry, key: string)
    ensures FiledUnder(File(m, at, entry), key) == FiledUnder(m, key) + (if at == key then [entry] else [])
  {
  }

  lemma FromOneMoreUnder(
    ports: map<string, PortRef>, m: Filed, edges: seq<ConnectionEdge>, e: ConnectionEdge, key: string)
    requires FiledUnder(m, key) == EntriesOf(ports, FiledFrom(edges, key))
    ensures FiledUnder(File(m, KeyOf(e.source), EntryOf(ports, e)), key)
         == EntriesOf(ports, FiledFrom(edges + [e], key))
  {
    FiledOneMore(edges, e, key);
    FiledOneMoreUnder(m, KeyOf(e.source), EntryOf(ports, e), key);
    EntriesOneMore(ports, FiledFrom(edges, key), e);
  }

  lemma ToOneMoreUnder(
    ports: map<string, PortRef>, m: Filed, edges: seq<ConnectionEdge>, e: ConnectionEdge, key: string)
    requires FiledUnder(m, key) == EntriesOf(ports, FiledTo(edges, key))
    ensures FiledUnder(File(m, KeyOf(e.target), EntryOf(ports, e)), key) == EntriesOf(ports, FiledTo(edges + [e], key))
  {
    FiledOneMore(edges, e, key);
    FiledOneMoreUnder(m, KeyOf(e.target), EntryOf(ports, e), key);
    EntriesOneMore(ports, FiledTo(edges, key), e);
  }

  lemma FromExactlyOneMore(ports: map<string, PortRef>, m: Filed, edges: seq<ConnectionEdge>, e: ConnectionEdge)
    requires FromExactly(ports, m, edges)
    ensures FromExactly(ports, File(m, KeyOf(e.source), EntryOf(ports, e)), edges + [e])
  {
    forall key
      ensures FiledUnder(File(m, KeyOf(e.source), EntryOf(ports, e)), key)
           == EntriesOf(ports, FiledFrom(edges + [e], key))
    {
      FromOneMoreUnder(ports, m, edges, e, key);
    }
  }

  lemma ToExactlyOneMore(ports: map<string, PortRef>, m: Filed, edges: seq<ConnectionEdge>, e: ConnectionEdge)
    requires ToExactly(ports, m, edges)
    ensures ToExactly(ports, File(m, KeyOf(e.target), EntryOf(ports, e)), edges + [e])
  {
    forall key
      ensures FiledUnder(File(m, KeyOf(e.target), EntryOf(ports, e)), key)
           == EntriesOf(ports, FiledTo(edges + [e], key))
    {
      ToOneMoreUnder(ports, m, edges, e, key);
    }
  }

  /** The three tables of a graph hold exactly its entries. */
  ghost predicate FiledExactly(
    ports: map<string, PortRef>, bySource: Filed, byTarget: Filed, byId: map<Id, RouteEntry>,
    edges: seq<ConnectionEdge>)
  {
    FromExactly(ports, bySource, edges) && ToExactly(ports, byTarget, edges) && byId == ById(ports, edges)
  }

  lemma FiledOnce(
    ports: map<string, PortRef>, bySource: Filed, byTarget: Filed, byId: map<Id, RouteEntry>,
    edges: seq<ConnectionEdge>, e: ConnectionEdge)
    requires FiledExactly(ports, bySource, byTarget, byId, edges)
    ensures FiledExactly(ports, File(bySource, KeyOf(e.source), EntryOf(ports, e)),
                         File(byTarget, KeyOf(e.target), EntryOf(ports, e)),
                         byId[e.connectionId := EntryOf(ports, e)], edges + [e])
  {
    FromExactlyOneMore(ports, bySource, edges, e);
    ToExactlyOneMore(ports, byTarget, edges, e);
    assert (edges + [e])[..|edges|] == edges;
  }

  lemma TakeNoneOrAll(edges: seq<ConnectionEdge>)
    ensures edges[..0] == [] && edges[..|edges|] == edges
  {
  }

  lemma NothingFiled(ports: map<string, PortRef>)
    ensures FiledExactly(ports, map[], map[], map[], [])
  {
  }

  lemma EntryIsFor(refs: seq<PortRef>, e: ConnectionEdge)
    ensures EntryFor(e, EntryOf(Indexed(refs), e))
  {
    EndpointKeyed(refs, e.source, e.payload, Output);
    EndpointKeyed(refs, e.target, e.payload, Input);
  }

  lemma EndpointKeyed(refs: seq<PortRef>, endpoint: string, payload: string, d: PortDirection)
    ensures RefOf(Indexed(refs), endpoint, payload, d).Fqid() == KeyOf(endpoint)
  {
    if endpoint in Indexed(refs) {
      DeclaredAreDotted(refs, endpoint);
    } else {
      UndeclaredKey(endpoint, payload, d);
    }
  }

  lemma EntriesAreFor(refs: seq<PortRef>, edges: seq<ConnectionEdge>)
    ensures EntriesFor(edges, EntriesOf(Indexed(refs), edges))
  {
    forall i | 0 <= i < |edges| ensures EntryFor(edges[i], EntriesOf(Indexed(refs), edges)[i]) {
      EntryIsFor(refs, edges[i]);
    }
  }

  lemma ExactIsFiled(refs: seq<PortRef>, bySource: Filed, byTarget: Filed, edges: seq<ConnectionEdge>)
    requires FromExactly(Indexed(refs), bySource, edges) && ToExactly(Indexed(refs), byTarget, edges)
    ensures FilesFrom(bySource, edges) && FilesTo(byTarget, edges)
  {
    forall key
      ensures EntriesFor(FiledFrom(edges, key), FiledUnder(bySource, key))
      ensures EntriesFor(FiledTo(edges, key), FiledUnder(byTarget, key))
    {
      EntriesAreFor(refs, FiledFrom(edges, key));
      EntriesAreFor(refs, FiledTo(edges, key));
    }
  }

  class RouteIndex {
    var bySource: Filed
    var byTarget: Filed
    var byConnectionId: map<Id, RouteEntry>

    ghost predicate Files(edges: seq<ConnectionEdge>) reads this {
      FilesFrom(bySource, edges) && FilesTo(byTarget, edges)
    }

    ghost predicate FilesExactly(ports: map<string, PortRef>, edges: seq<ConnectionEdge>) reads this {
      FiledExactly(ports, bySource, byTarget, byConnectionId, edges)
    }

    /** Builds the public route table of a graph. */
    constructor Build(g: GraphSnapshot, index: PortIndex)
      requires index.Valid()
      ensures Files(g.edges) && FilesExactly(Indexed(index.refs), g.edges)
    {
      bySource, byTarget, byConnectionId := map[], map[], map[];
      new;
      FileAll(g.edges, index);
      ExactIsFiled(index.refs, bySource, byTarget, g.edges);
    }

    method FileAll(edges: seq<ConnectionEdge>, index: PortIndex)
      requires index.Valid() && bySource == map[] && byTarget == map[] && byConnectionId == map[]
      modifies this
      ensures FilesExactly(Indexed(index.refs), edges)
    {
      ghost var ports := Indexed(index.refs);
      ghost var done: seq<ConnectionEdge> := [];
      NothingFiled(ports);
      TakeNoneOrAll(edges);
      for k := 0 to |edges|
        invariant done == edges[..k] && ports == Indexed(index.refs)
        invariant FiledExactly(ports, bySource, byTarget, byConnectionId, done)
      {
        FiledOnce(ports, bySource, byTarget, byConnectionId, done, edges[k]);
        FileEdge(edges[k], index);
        TakeOneMore(edges, k);
        done := done + [edges[k]];
      }
    }

    method FileEdge(e: ConnectionEdge, index: PortIndex)
      requires index.Valid()
      modifies this
      ensures var entry := EntryOf(Indexed(index.refs), e);
              && bySource == File(old(bySource), KeyOf(e.source), entry)
              && byTarget == File(old(byTarget), KeyOf(e.target), entry)
              && byConnectionId == old(byConnectionId)[e.connectionId := entry]
    {
      var source := EndpointRef(e.source, e.payload, Output, index);
      var target := EndpointRef(e.target, e.payload, Input, index);
      var entry := RouteEntry(e.connectionId, source, target, e.mode, e.policy);
      bySource := File(bySource, source.Fqid(), entry);
      byTarget := File(byTarget, target.Fqid(), entry);
      byConnectionId := byConnectionId[e.connectionId := entry];
    }

    method EndpointRef(endpoint: string, payload: string, d: PortDirection, index: PortIndex) returns (ref: PortRef)
      requires index.Valid()
      ensures ref == RefOf(Indexed(index.refs), endpoint, payload, d) && ref.Fqid() == KeyOf(endpoint)
    {
      EndpointKeyed(index.refs, endpoint, payload, d);
      var found := index.LookupPort(endpoint);
      if found.Some? {
        return found.value;
      }
      ref := Undeclared(endpoint, payload, d);
    }

    function RoutesFrom(key: string): seq<RouteEntry> reads this {
      FiledUnder(bySource, key)
    }

    function RoutesTo(key: string): seq<RouteEntry> reads this {
      FiledUnder(byTarget, key)
    }
  }

  // --------------------------------------------- agreement with the compiled table

  ghost predicate EntryOfBinding(entry: RouteEntry, b: RouteBinding) {
    && entry.connectionId == b.connectionId && entry.mode == b.mode && entry.policy == b.policy
    && entry.target.Fqid() == KeyOf(b.target)
  }

  /** The two tables give the same routes for a source, in the same order. */
  ghost predicate SameRoutes(entries: seq<RouteEntry>, bindings: seq<RouteBinding>) {
    |entries| == |bindings| && forall i :: 0 <= i < |entries| ==> EntryOfBinding(entries[i], bindings[i])
  }

  /** A dotted source that does not end in a dot is filed under itself alone. */
  lemma {:induction false} FiledIsLeaving(edges: seq<ConnectionEdge>, source: string)
    requires Dotted(source)
    requires source[|source| - 1] != '.' || forall e :: e in edges ==> Dotted(e.source)
    ensures FiledFrom(edges, source) == Leaving(edges, source)
  {
    if edges == [] {
    } else {
      var last := edges[|edges| - 1];
      assert last in edges;
      assert forall e :: e in edges[..|edges| - 1] ==> e in edges;
      FiledIsLeaving(edges[..|edges| - 1], source);
      if !Dotted(last.source) { assert KeyOf(last.source)[|last.source|] == '.'; }
    }
  }

  /** For every dotted source that does not end in a dot, both tables give the same routes. */
  lemma DottedRoutesAgree(edges: seq<ConnectionEdge>, source: string, entries: seq<RouteEntry>)
    requires Dotted(source)
    requires source[|source| - 1] != '.' || forall e :: e in edges ==> Dotted(e.source)
    requires EntriesFor(FiledFrom(edges, source), entries)
    ensures SameRoutes(entries, Lookup(Compiled(edges), source))
  {
    FiledIsLeaving(edges, source);
    ScanIsLeaving(edges, source);
    LookupIsScan(edges, source);
  }

  lemma {:induction false} NothingFiledUndotted(edges: seq<ConnectionEdge>, source: string)
    requires !Dotted(source)
    ensures FiledFrom(edges, source) == []
  {
    if edges == [] {
    } else {
      var last := edges[|edges| - 1];
      NothingFiledUndotted(edges[..|edges| - 1], source);
      if !Dotted(last.source) { assert KeyOf(last.source)[|last.source|] == '.'; }
    }
  }

  lemma {:induction false} LeavingInhabited(edges: seq<ConnectionEdge>, e: ConnectionEdge)
    requires e in edges
    ensures e in Leaving(edges, e.source)
  {
    var last := edges[|edges| - 1];
    assert edges == edges[..|edges| - 1] + [last];
    if e == last {
    } else {
      LeavingInhabited(edges[..|edges| - 1], e);
    }
  }

  lemma {:induction false} NoneLeaving(edges: seq<ConnectionEdge>, source: string)
    requires forall e :: e in edges ==> e.source != source
    ensures Leaving(edges, source) == []
  {
    if edges == [] {
    } else {
      assert edges[|edges| - 1] in edges;
      assert forall e :: e in edges[..|edges| - 1] ==> e in edges;
      NoneLeaving(edges[..|edges| - 1], source);
    }
  }

  ghost predicate Agree(edges: seq<ConnectionEdge>, table: Filed) {
    forall source :: SameRoutes(FiledUnder(table, source), Lookup(Compiled(edges), source))
  }

  /** The public table agrees with the engine's on every source exactly when every connection has a dotted source. */
  lemma TablesAgreeExactly(edges: seq<ConnectionEdge>, table: Filed)
    requires FilesFrom(table, edges)
    ensures Agree(edges, table) <==> forall e :: e in edges ==> Dotted(e.source)
  {
    if forall e :: e in edges ==> Dotted(e.source) {
      forall source ensures SameRoutes(FiledUnder(table, source), Lookup(Compiled(edges), source)) {
        assert EntriesFor(FiledFrom(edges, source), FiledUnder(table, source));
        if Dotted(source) {
          DottedRoutesAgree(edges, source, FiledUnder(table, source));
        } else {
          NothingFiledUndotted(edges, source);
          LookupIsScan(edges, source);
          ScanIsLeaving(edges, source);
          NoneLeaving(edges, source);
        }
      }
    } else {
      var e :| e in edges && !Dotted(e.source);
      UndottedDisagrees(edges, table, e);
    }
  }

  lemma UndottedDisagrees(edges: seq<ConnectionEdge>, table: Filed, e: ConnectionEdge)
    requires FilesFrom(table, edges)
    requires e in edges && !Dotted(e.source)
    ensures !SameRoutes(FiledUnder(table, e.source), Lookup(Compiled(edges), e.source))
  {
    assert EntriesFor(FiledFrom(edges, e.source), FiledUnder(table, e.source));
    NothingFiledUndotted(edges, e.source);
    LookupIsScan(edges, e.source);
    ScanIsLeaving(edges, e.source);
    LeavingInhabited(edges, e);
  }
}
