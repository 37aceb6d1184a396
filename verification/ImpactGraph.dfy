/** The graph of the change-impact search, edges reversed. */
module ImpactGraph {
  import opened Common
  import opened CallGraph

  datatype Via = DirectCall | AmbiguousCall | EndpointClient | Bridge

  datatype Site = Site(file: nat, line: nat)

  /** An edge out of the changed function, to the function `to` that it reaches. */
  datatype Edge = Edge(to: nat, confidence: Confidence, via: Via, site: Site)

  type Adjacency = map<nat, seq<Edge>>

  datatype Route = Route(handler: Option<nat>, confidence: Confidence)
  datatype Client = Client(caller: nat, file: nat, line: nat, confidence: Confidence)
  datatype Native = Native(impl: nat)
  datatype Match = Match(from: nat, target: nat, confidence: Confidence)

  /** `fileOf[f]` is the file of function `f`. A match pairs a client (or bridge call) with a
      route (or native function), both given by position. */
  datatype Graph = Graph(
    fileOf: seq<nat>,
    calls: seq<CallSite>,
    routes: seq<Route>,
    clients: seq<Client>,
    routeMatches: seq<Match>,
    natives: seq<Native>,
    bridgeCalls: seq<Client>,
    bridgeMatches: seq<Match>)
  {
    /** Every position stored in the graph is in range; the source panics otherwise. */
    ghost predicate Valid() {
      && (forall c :: c in calls ==> c.caller < |fileOf|)
      && (forall m :: m in routeMatches ==> m.from < |clients| && m.target < |routes|)
      && (forall m :: m in bridgeMatches ==> m.from < |bridgeCalls| && m.target < |natives|)
      && (forall c :: c in clients || c in bridgeCalls ==> c.caller < |fileOf|)
    }
  }

  // ---- What an edge means, independently of how the adjacency is filled ----

  function SiteOf(g: Graph, c: CallSite): Site
    requires c.caller < |g.fileOf|
  {
    Site(g.fileOf[c.caller], c.line)
  }

  ghost predicate CallEdge(g: Graph, f: nat, e: Edge, i: nat)
    requires g.Valid()
  {
    && i < |g.calls|
    && var c := g.calls[i];
    && c.resolution.Internal?
    && e.to == c.caller
    && e.site == Site(g.fileOf[c.caller], c.line)
    && (|| (f == c.resolution.callee && e.confidence == c.resolution.confidence && e.via == DirectCall)
        || (f in c.resolution.ambiguousWith && e.confidence == Heuristic && e.via == AmbiguousCall))
  }

  ghost predicate RouteEdge(g: Graph, f: nat, e: Edge, i: nat)
    requires g.Valid()
  {
    && i < |g.routeMatches|
    && var m := g.routeMatches[i];
    && var r := g.routes[m.target];
    && var c := g.clients[m.from];
    && r.handler == Some(f)
    && e.to == c.caller
    && (e.confidence == High <==> m.confidence == High && r.confidence == High && c.confidence == High)
    && e.via == EndpointClient
    && e.site == Site(c.file, c.line)
  }

  ghost predicate BridgeEdge(g: Graph, f: nat, e: Edge, i: nat)
    requires g.Valid()
  {
    && i < |g.bridgeMatches|
    && var m := g.bridgeMatches[i];
    && var c := g.bridgeCalls[m.from];
    && f == g.natives[m.target].impl
    && e.to == c.caller
    && (e.confidence == High <==> m.confidence == High && c.confidence == High)
    && e.via == Bridge
    && e.site == Site(c.file, c.line)
  }

  /** A change to `f` pulls in the function `e.to` along `e`. */
  ghost predicate Pulls(g: Graph, f: nat, e: Edge)
    requires g.Valid()
  {
    || (exists i: nat :: CallEdge(g, f, e, i))
    || (exists i: nat :: RouteEdge(g, f, e, i))
    || (exists i: nat :: BridgeEdge(g, f, e, i))
  }

  function Out(rev: Adjacency, f: nat): seq<Edge> {
    if f in rev then rev[f] else []
  }

  // ---- The edges of the graph, one after the other ----

  datatype Arc = Arc(from: nat, edge: Edge)

  /** One call site: its resolution and every other plausible candidate. */
  function CallArcs(g: Graph, i: nat): seq<Arc>
    requires g.Valid() && i < |g.calls|
  {
    assert g.calls[i] in g.calls;
    var c := g.calls[i];
    if !c.resolution.Internal? then []
    else
      [Arc(c.resolution.callee, Edge(c.caller, c.resolution.confidence, DirectCall, SiteOf(g, c)))]
      + Ambiguous(c.resolution.ambiguousWith, Edge(c.caller, Heuristic, AmbiguousCall, SiteOf(g, c)))
  }

  function Ambiguous(fs: seq<nat>, e: Edge): seq<Arc> {
    seq(|fs|, k requires 0 <= k < |fs| => Arc(fs[k], e))
  }

  function RouteArcs(g: Graph, i: nat): seq<Arc>
    requires g.Valid() && i < |g.routeMatches|
  {
    var m := g.routeMatches[i];
    assert m in g.routeMatches;
    var r, c := g.routes[m.target], g.clients[m.from];
    var confidence := Worse(m.confidence, Worse(r.confidence, c.confidence));
    if r.handler.None? then []
    else [Arc(r.handler.value, Edge(c.caller, confidence, EndpointClient, Site(c.file, c.line)))]
  }

  function BridgeArcs(g: Graph, i: nat): seq<Arc>
    requires g.Valid() && i < |g.bridgeMatches|
  {
    var m := g.bridgeMatches[i];
    assert m in g.bridgeMatches;
    var c := g.bridgeCalls[m.from];
    [Arc(g.natives[m.target].impl, Edge(c.caller, Worse(m.confidence, c.confidence), Bridge, Site(c.file, c.line)))]
  }

  function Concat(parts: seq<seq<Arc>>): seq<Arc> {
    if parts == [] then [] else Concat(parts[..|parts| - 1]) + parts[|parts| - 1]
  }

  lemma {:induction false} ConcatAre(parts: seq<seq<Arc>>, a: Arc)
    ensures a in Concat(parts) <==> exists i: nat :: i < |parts| && a in parts[i]
  {
    if parts != [] {
      ConcatAre(parts[..|parts| - 1], a);
      assert forall i: nat :: i < |parts| - 1 ==> parts[i] == parts[..|parts| - 1][i];
    }
  }

  lemma ConcatPush(parts: seq<seq<Arc>>, i: nat)
    requires i < |parts|
    ensures Concat(parts[..i + 1]) == Concat(parts[..i]) + parts[i]
  {
    assert parts[..i + 1][..i] == parts[..i];
  }

  function CallParts(g: Graph): seq<seq<Arc>>
    requires g.Valid()
  {
    seq(|g.calls|, i requires 0 <= i < |g.calls| => CallArcs(g, i))
  }

  function RouteParts(g: Graph): seq<seq<Arc>>
    requires g.Valid()
  {
    seq(|g.routeMatches|, i requires 0 <= i < |g.routeMatches| => RouteArcs(g, i))
  }

  function BridgeParts(g: Graph): seq<seq<Arc>>
    requires g.Valid()
  {
    seq(|g.bridgeMatches|, i requires 0 <= i < |g.bridgeMatches| => BridgeArcs(g, i))
  }

  function Arcs(g: Graph): seq<Arc>
    requires g.Valid()
  {
    Concat(CallParts(g)) + Concat(RouteParts(g)) + Concat(BridgeParts(g))
  }

  lemma CallArcsAre(g: Graph, i: nat, a: Arc)
    requires g.Valid() && i < |g.calls|
    ensures a in CallArcs(g, i) <==> CallEdge(g, a.from, a.edge, i)
  {
    assert g.calls[i] in g.calls;
    var c := g.calls[i];
    if c.resolution.Internal? {
      var amb := c.resolution.ambiguousWith;
      var e := Edge(c.caller, Heuristic, AmbiguousCall, SiteOf(g, c));
      assert a in Ambiguous(amb, e) <==> a.from in amb && a.edge == e by {
        if a.from in amb && a.edge == e {
          var k :| 0 <= k < |amb| && amb[k] == a.from;
          assert Ambiguous(amb, e)[k] == a;
        }
      }
    }
  }

  lemma RouteArcsAre(g: Graph, i: nat, a: Arc)
    requires g.Valid() && i < |g.routeMatches|
    ensures a in RouteArcs(g, i) <==> RouteEdge(g, a.from, a.edge, i)
  {
    assert g.routeMatches[i] in g.routeMatches;
  }

  lemma BridgeArcsAre(g: Graph, i: nat, a: Arc)
    requires g.Valid() && i < |g.bridgeMatches|
    ensures a in BridgeArcs(g, i) <==> BridgeEdge(g, a.from, a.edge, i)
  {
    assert g.bridgeMatches[i] in g.bridgeMatches;
  }

  lemma CallsAre(g: Graph, a: Arc)
    requires g.Valid()
    ensures a in Concat(CallParts(g)) <==> exists i: nat :: CallEdge(g, a.from, a.edge, i)
  {
    ConcatAre(CallParts(g), a);
    forall i: nat | i < |g.calls|
      ensures a in CallParts(g)[i] <==> CallEdge(g, a.from, a.edge, i)
    {
      CallArcsAre(g, i, a);
    }
  }

  lemma RoutesAre(g: Graph, a: Arc)
    requires g.Valid()
    ensures a in Concat(RouteParts(g)) <==> exists i: nat :: RouteEdge(g, a.from, a.edge, i)
  {
    ConcatAre(RouteParts(g), a);
    forall i: nat | i < |g.routeMatches|
      ensures a in RouteParts(g)[i] <==> RouteEdge(g, a.from, a.edge, i)
    {
      RouteArcsAre(g, i, a);
    }
  }

  lemma BridgesAre(g: Graph, a: Arc)
    requires g.Valid()
    ensures a in Concat(BridgeParts(g)) <==> exists i: nat :: BridgeEdge(g, a.from, a.edge, i)
  {
    ConcatAre(BridgeParts(g), a);
    forall i: nat | i < |g.bridgeMatches|
      ensures a in BridgeParts(g)[i] <==> BridgeEdge(g, a.from, a.edge, i)
    {
      BridgeArcsAre(g, i, a);
    }
  }

  lemma ArcsAre(g: Graph, a: Arc)
    requires g.Valid()
    ensures a in Arcs(g) <==> Pulls(g, a.from, a.edge)
  {
    CallsAre(g, a);
    RoutesAre(g, a);
    BridgesAre(g, a);
  }

  // ---- Filling the adjacency ----

  function Push(rev: Adjacency, a: Arc): Adjacency {
    rev[a.from := Out(rev, a.from) + [a.edge]]
  }

  function Filled(arcs: seq<Arc>): Adjacency {
    if arcs == [] then map[] else var k := |arcs| - 1; Push(Filled(arcs[..k]), arcs[k])
  }

  lemma FilledPush(arcs: seq<Arc>, a: Arc)
    ensures Filled(arcs + [a]) == Push(Filled(arcs), a)
  {
    assert (arcs + [a])[..|arcs|] == arcs;
  }

  lemma {:induction false} FilledAre(arcs: seq<Arc>, f: nat, e: Edge)
    ensures e in Out(Filled(arcs), f) <==> Arc(f, e) in arcs
  {
    if arcs != [] {
      var k := |arcs| - 1;
      FilledAre(arcs[..k], f, e);
      assert arcs == arcs[..k] + [arcs[k]];
    }
  }

  function Adjacent(g: Graph): Adjacency
    requires g.Valid()
  {
    Filled(Arcs(g))
  }

  /** The adjacency holds exactly the edges of the graph. */
  lemma AdjacentMeaning(g: Graph, f: nat, e: Edge)
    requires g.Valid()
    ensures e in Out(Adjacent(g), f) <==> Pulls(g, f, e)
  {
    FilledAre(Arcs(g), f, e);
    ArcsAre(g, Arc(f, e));
  }

  method PushCall(g: Graph, ghost arcs: seq<Arc>, rev0: Adjacency, i: nat) returns (rev: Adjacency)
    requires g.Valid() && i < |g.calls| && rev0 == Filled(arcs)
    ensures rev == Filled(arcs + CallArcs(g, i))
  {
    rev := rev0;
    var c := g.calls[i];
    assert c in g.calls;
    assert arcs + [] == arcs;
    if c.resolution.Internal? {
      var site := SiteOf(g, c);
      var direct := Arc(c.resolution.callee, Edge(c.caller, c.resolution.confidence, DirectCall, site));
      rev := Push(rev, direct);
      FilledPush(arcs, direct);
      var amb, e := c.resolution.ambiguousWith, Edge(c.caller, Heuristic, AmbiguousCall, site);
      rev := PushAmbiguous(arcs + [direct], rev, amb, e);
      Regroup(arcs, [direct], Ambiguous(amb, e));
    }
  }

  lemma AmbiguousPush(arcs: seq<Arc>, amb: seq<nat>, e: Edge, k: nat)
    requires k < |amb|
    ensures Filled(arcs + Ambiguous(amb[..k + 1], e)) == Push(Filled(arcs + Ambiguous(amb[..k], e)), Arc(amb[k], e))
  {
    FilledPush(arcs + Ambiguous(amb[..k], e), Arc(amb[k], e));
    assert Ambiguous(amb[..k + 1], e) == Ambiguous(amb[..k], e) + [Arc(amb[k], e)];
    Regroup(arcs, Ambiguous(amb[..k], e), [Arc(amb[k], e)]);
  }

  method PushAmbiguous(ghost arcs: seq<Arc>, rev0: Adjacency, amb: seq<nat>, e: Edge) returns (rev: Adjacency)
    requires rev0 == Filled(arcs)
    ensures rev == Filled(arcs + Ambiguous(amb, e))
  {
    rev := rev0;
    assert arcs + [] == arcs;
    for k := 0 to |amb|
      invariant rev == Filled(arcs + Ambiguous(amb[..k], e))
    {
      rev := Push(rev, Arc(amb[k], e));
      AmbiguousPush(arcs, amb, e, k);
    }
    assert amb[..|amb|] == amb;
  }

  method PushRoute(g: Graph, ghost arcs: seq<Arc>, rev0: Adjacency, i: nat) returns (rev: Adjacency)
    requires g.Valid() && i < |g.routeMatches| && rev0 == Filled(arcs)
    ensures rev == Filled(arcs + RouteArcs(g, i))
  {
    rev := rev0;
    var m := g.routeMatches[i];
    assert m in g.routeMatches;
    assert arcs + [] == arcs;
    var r := g.routes[m.target];
    if r.handler.Some? {
      var c := g.clients[m.from];
      var confidence := Worse(m.confidence, Worse(r.confidence, c.confidence));
      var a := Arc(r.handler.value, Edge(c.caller, confidence, EndpointClient, Site(c.file, c.line)));
      rev := Push(rev, a);
      FilledPush(arcs, a);
    }
  }

  method PushBridge(g: Graph, ghost arcs: seq<Arc>, rev0: Adjacency, i: nat) returns (rev: Adjacency)
    requires g.Valid() && i < |g.bridgeMatches| && rev0 == Filled(arcs)
    ensures rev == Filled(arcs + BridgeArcs(g, i))
  {
    var m := g.bridgeMatches[i];
    assert m in g.bridgeMatches;
    var c := g.bridgeCalls[m.from];
    var a := Arc(g.natives[m.target].impl,
                 Edge(c.caller, Worse(m.confidence, c.confidence), Bridge, Site(c.file, c.line)));
    rev := Push(rev0, a);
    FilledPush(arcs, a);
  }

  method PushCalls(g: Graph, ghost arcs: seq<Arc>, rev0: Adjacency) returns (rev: Adjacency)
    requires g.Valid() && rev0 == Filled(arcs)
    ensures rev == Filled(arcs + Concat(CallParts(g)))
  {
    rev := rev0;
    ghost var parts := CallParts(g);
    assert arcs + [] == arcs;
    for i := 0 to |g.calls|
      invariant rev == Filled(arcs + Concat(parts[..i]))
    {
      rev := PushCall(g, arcs + Concat(parts[..i]), rev, i);
      ConcatPush(parts, i);
      Regroup(arcs, Concat(parts[..i]), parts[i]);
    }
    assert parts[..|parts|] == parts;
  }

  method PushRoutes(g: Graph, ghost arcs: seq<Arc>, rev0: Adjacency) returns (rev: Adjacency)
    requires g.Valid() && rev0 == Filled(arcs)
    ensures rev == Filled(arcs + Concat(RouteParts(g)))
  {
    rev := rev0;
    ghost var parts := RouteParts(g);
    assert arcs + [] == arcs;
    for i := 0 to |g.routeMatches|
      invariant rev == Filled(arcs + Concat(parts[..i]))
    {
      rev := PushRoute(g, arcs + Concat(parts[..i]), rev, i);
      ConcatPush(parts, i);
      Regroup(arcs, Concat(parts[..i]), parts[i]);
    }
    assert parts[..|parts|] == parts;
  }

  method PushBridges(g: Graph, ghost arcs: seq<Arc>, rev0: Adjacency) returns (rev: Adjacency)
    requires g.Valid() && rev0 == Filled(arcs)
    ensures rev == Filled(arcs + Concat(BridgeParts(g)))
  {
    rev := rev0;
    ghost var parts := BridgeParts(g);
    assert arcs + [] == arcs;
    for i := 0 to |g.bridgeMatches|
      invariant rev == Filled(arcs + Concat(parts[..i]))
    {
      rev := PushBridge(g, arcs + Concat(parts[..i]), rev, i);
      ConcatPush(parts, i);
      Regroup(arcs, Concat(parts[..i]), parts[i]);
    }
    assert parts[..|parts|] == parts;
  }

  method ReverseAdjacency(g: Graph) returns (rev: Adjacency)
    requires g.Valid()
    ensures rev == Adjacent(g)
  {
    ghost var calls, routes := Concat(CallParts(g)), Concat(RouteParts(g));
    rev := PushCalls(g, [], map[]);
    assert [] + calls == calls;
    rev := PushRoutes(g, calls, rev);
    rev := PushBridges(g, calls + routes, rev);
  }

  lemma PullsWithinGraph(g: Graph, f: nat, e: Edge)
    requires g.Valid() && Pulls(g, f, e)
    ensures e.to < |g.fileOf|
  {
    if i: nat :| CallEdge(g, f, e, i) {
      assert g.calls[i] in g.calls;
    } else if i: nat :| RouteEdge(g, f, e, i) {
      assert g.routeMatches[i] in g.routeMatches;
    } else {
      var i: nat :| BridgeEdge(g, f, e, i);
      assert g.bridgeMatches[i] in g.bridgeMatches;
    }
  }
}
