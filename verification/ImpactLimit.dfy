/** The change-impact search and its depth limit. */
module ImpactLimit {
  import opened Common
  import opened CallGraph
  import opened ImpactGraph
  import opened ImpactSearch
  import opened ImpactWalks
  import opened ImpactClosure
  import opened ImpactCap
  import opened ImpactLevels

  // ---- The exact condition ----

  /** Functions that lie within the limit and are no seeds. */
  ghost predicate InReach(rev: Adjacency, seeds: seq<nat>, maxDepth: nat, found: set<nat>) {
    forall n :: n in found ==> n !in seeds && Within(rev, seeds, maxDepth, n)
  }

  /** There are no more of them than can be reported. */
  ghost predicate Fits(rev: Adjacency, seeds: seq<nat>, maxDepth: nat) {
    forall found: set<nat> {:trigger InReach(rev, seeds, maxDepth, found)} ::
      InReach(rev, seeds, maxDepth, found) ==> |found| <= Capacity(seeds)
  }

  /** The reported functions and the refused one. */
  lemma OneTooMany(rev: Adjacency, seeds: seq<nat>, maxDepth: nat) returns (found: set<nat>)
    requires Result(rev, seeds, maxDepth).truncated
    ensures InReach(rev, seeds, maxDepth, found) && |found| == |Result(rev, seeds, maxDepth).impacted| + 1
  {
    var impacted := Result(rev, seeds, maxDepth).impacted;
    var n := RefusedIsWithin(rev, seeds, maxDepth);
    found := impacted.Keys + {n};
    forall m | m in impacted
      ensures m !in seeds && Within(rev, seeds, maxDepth, m)
    {
      ReportedIsWithin(rev, seeds, maxDepth, m);
    }
    assert |impacted.Keys| == |impacted|;
  }

  lemma FittingIsNotRefused(rev: Adjacency, seeds: seq<nat>, maxDepth: nat)
    requires Fits(rev, seeds, maxDepth)
    ensures !Result(rev, seeds, maxDepth).truncated
  {
    NodeCap(rev, seeds, maxDepth);
    if Result(rev, seeds, maxDepth).truncated {
      var found := OneTooMany(rev, seeds, maxDepth);
      assert false;
    }
  }

  lemma CompleteFits(rev: Adjacency, seeds: seq<nat>, maxDepth: nat)
    requires Complete(rev, seeds, maxDepth, Result(rev, seeds, maxDepth).impacted)
    ensures Fits(rev, seeds, maxDepth)
  {
    var impacted := Result(rev, seeds, maxDepth).impacted;
    NodeCap(rev, seeds, maxDepth);
    forall found: set<nat> | InReach(rev, seeds, maxDepth, found)
      ensures |found| <= Capacity(seeds)
    {
      SubsetCount(found, impacted.Keys);
      assert |impacted.Keys| == |impacted|;
    }
  }

  lemma CompleteHasNoDetour(rev: Adjacency, seeds: seq<nat>, maxDepth: nat)
    requires Complete(rev, seeds, maxDepth, Result(rev, seeds, maxDepth).impacted)
    requires Distances(rev, seeds, Result(rev, seeds, maxDepth).impacted)
    ensures NoHighDetour(rev, seeds, maxDepth)
  {
    var impacted := Result(rev, seeds, maxDepth).impacted;
    forall n | HighWithin(rev, seeds, maxDepth, n)
      ensures ShortestIsHigh(rev, seeds, n)
    {
      if n in seeds {
        var none: seq<Edge> := [];
        assert Walk(rev, n, none, n) && AllHigh(none) && Distance(rev, seeds, n, |none|);
      } else {
        var s, w :| s in seeds && Walk(rev, s, w, n) && AllHigh(w) && |w| <= maxDepth;
        assert Within(rev, seeds, maxDepth, n);
        DepthWitness(rev, seeds, maxDepth, n);
        var s', w' :| Explains(rev, seeds, impacted, n, s', w');
        assert s' in seeds && Walk(rev, s', w', n) && AllHigh(w') && Distance(rev, seeds, n, |w'|);
      }
    }
  }

  /** The report is the closure within the limit, with the best confidence and true distances, exactly
      when two things hold of the graph: within the limit High is never a detour, and there is room
      for all the functions within it. */
  lemma DepthPromise(rev: Adjacency, seeds: seq<nat>, maxDepth: nat)
    ensures var impacted := Result(rev, seeds, maxDepth).impacted;
            Complete(rev, seeds, maxDepth, impacted) && Distances(rev, seeds, impacted) <==>
              NoHighDetour(rev, seeds, maxDepth) && Fits(rev, seeds, maxDepth)
  {
    var impacted := Result(rev, seeds, maxDepth).impacted;
    if NoHighDetour(rev, seeds, maxDepth) && Fits(rev, seeds, maxDepth) {
      FittingIsNotRefused(rev, seeds, maxDepth);
      NoDetourSuffices(rev, seeds, maxDepth);
    } else if Complete(rev, seeds, maxDepth, impacted) && Distances(rev, seeds, impacted) {
      CompleteFits(rev, seeds, maxDepth);
      CompleteHasNoDetour(rev, seeds, maxDepth);
    }
  }

  // ---- Limits that are kept on every graph ----

  ghost predicate KeepsPromise(maxDepth: nat) {
    forall rev: Adjacency, seeds: seq<nat> {:trigger Result(rev, seeds, maxDepth)} ::
      Distinct(seeds) && !Result(rev, seeds, maxDepth).truncated ==>
        Complete(rev, seeds, maxDepth, Result(rev, seeds, maxDepth).impacted)
  }

  /** One edge at most: only the seeds are followed, and no upgrade changes a depth. */
  lemma ShortWalkReported(rev: Adjacency, seeds: seq<nat>, maxDepth: nat, s: nat, w: seq<Edge>, n: nat)
    requires !Result(rev, seeds, maxDepth).truncated
    requires s in seeds && Walk(rev, s, w, n) && |w| <= maxDepth <= 1 && n !in seeds
    ensures var impacted := Result(rev, seeds, maxDepth).impacted;
            n in impacted && (AllHigh(w) ==> impacted[n].confidence == High)
  {
    ResultInvariants(rev, seeds, maxDepth);
    var r := Result(rev, seeds, maxDepth);
    assert w != [] && w[..0] == [];
    assert Settled(rev, maxDepth, r, s);
    assert Covered(r, High, w[0]);
  }

  lemma ShallowIsComplete(rev: Adjacency, seeds: seq<nat>, maxDepth: nat)
    requires maxDepth <= 1 && !Result(rev, seeds, maxDepth).truncated
    ensures Complete(rev, seeds, maxDepth, Result(rev, seeds, maxDepth).impacted)
  {
    var impacted := Result(rev, seeds, maxDepth).impacted;
    forall n: nat
      ensures n in impacted <==> n !in seeds && Within(rev, seeds, maxDepth, n)
      ensures n in impacted ==> (impacted[n].confidence == High <==> HighWithin(rev, seeds, maxDepth, n))
    {
      if n in impacted {
        ReportedIsWithin(rev, seeds, maxDepth, n);
      }
      if n !in seeds && Within(rev, seeds, maxDepth, n) {
        var s, w :| s in seeds && Walk(rev, s, w, n) && |w| <= maxDepth;
        ShortWalkReported(rev, seeds, maxDepth, s, w, n);
      }
      if n !in seeds && HighWithin(rev, seeds, maxDepth, n) {
        var s, w :| s in seeds && Walk(rev, s, w, n) && AllHigh(w) && |w| <= maxDepth;
        ShortWalkReported(rev, seeds, maxDepth, s, w, n);
      }
    }
  }

  /** A limit above the node cap is never met. */
  lemma DeepIsComplete(rev: Adjacency, seeds: seq<nat>, maxDepth: nat)
    requires maxDepth > NODE_CAP && Distinct(seeds) && !Result(rev, seeds, maxDepth).truncated
    ensures Complete(rev, seeds, maxDepth, Result(rev, seeds, maxDepth).impacted)
  {
    NodeCap(rev, seeds, maxDepth);
    var impacted := Result(rev, seeds, maxDepth).impacted;
    forall n: nat
      ensures n in impacted <==> n !in seeds && Within(rev, seeds, maxDepth, n)
      ensures n in impacted ==> (impacted[n].confidence == High <==> HighWithin(rev, seeds, maxDepth, n))
    {
      ExactClosure(rev, seeds, maxDepth, n);
      if n in impacted {
        ReportedIsWithin(rev, seeds, maxDepth, n);
      }
    }
  }

  // ---- An upgrade that hides a function ----

  function Hop(to: nat, c: Confidence): Edge {
    Edge(to, c, DirectCall, Site(0, 0))
  }

  /** 0 reaches 2 (High) and 1 (Heuristic); 2 reaches 1 (High); and from 1 a chain of High edges
      leads on to 3, 4 and so forth up to `d + 1`. */
  function Shadow(d: nat): Adjacency {
    map n: nat | n <= d :: ShadowEdges(n)
  }

  function ShadowEdges(n: nat): seq<Edge> {
    if n == 0 then [Hop(2, High), Hop(1, Heuristic)]
    else if n == 1 then [Hop(3, High)]
    else if n == 2 then [Hop(1, High)]
    else [Hop(n + 1, High)]
  }

  lemma RelaxAllOne(st: State, seeds: seq<nat>, from: Mark, a: Edge)
    ensures RelaxAll(st, seeds, from, [a]) == Relax(st, seeds, from, a)
  {
    assert [a][..0] == [];
  }

  lemma RelaxAllTwo(st: State, seeds: seq<nat>, from: Mark, a: Edge, b: Edge)
    ensures RelaxAll(st, seeds, from, [a, b]) == Relax(Relax(st, seeds, from, a), seeds, from, b)
  {
    assert [a, b][..1] == [a];
    RelaxAllOne(st, seeds, from, a);
  }

  function Reported(c: Confidence, depth: nat): Impacted {
    Impacted(depth, c, DirectCall, Site(0, 0))
  }

  /** After the seed was taken: 2 and 1 are found. */
  function Shadow1(): State {
    State(map[0 := Mark(0, High), 2 := Mark(1, High), 1 := Mark(1, Heuristic)],
          map[2 := Reported(High, 1), 1 := Reported(Heuristic, 1)], [2, 1], false)
  }

  /** After 2 was taken: 1 has risen to High, at depth 2, before its turn came. */
  function Shadow2(): State {
    State(map[0 := Mark(0, High), 2 := Mark(1, High), 1 := Mark(2, High)],
          map[2 := Reported(High, 1), 1 := Reported(High, 2)], [1, 1], false)
  }

  lemma ShadowStep0(d: nat)
    requires d >= 2
    ensures Pop(Start([0]), Shadow(d), [0], d) == Shadow1()
  {
    var s0 := Start([0]);
    assert s0.marks == map[0 := Mark(0, High)];
    RelaxAllTwo(s0.(queue := []), [0], Mark(0, High), Hop(2, High), Hop(1, Heuristic));
    var mid := Relax(s0.(queue := []), [0], Mark(0, High), Hop(2, High));
    assert mid == Record(s0.(queue := []), Hop(2, High), Mark(1, High));
    UpdateCount(s0.marks, 2, Mark(1, High));
    assert Relax(mid, [0], Mark(0, High), Hop(1, Heuristic)) == Record(mid, Hop(1, Heuristic), Mark(1, Heuristic));
    var after := Record(mid, Hop(1, Heuristic), Mark(1, Heuristic));
    assert after.marks == Shadow1().marks;
    assert after.impacted == Shadow1().impacted;
    assert s0.queue[1..] == [];
    assert Pop(s0, Shadow(d), [0], d) ==
           RelaxAll(s0.(queue := []), [0], Mark(0, High), [Hop(2, High), Hop(1, Heuristic)]);
  }

  lemma ShadowStep1(d: nat)
    requires d >= 2
    ensures Pop(Shadow1(), Shadow(d), [0], d) == Shadow2()
  {
    RelaxAllOne(Shadow1().(queue := [1]), [0], Mark(1, High), Hop(1, High));
    assert Shadow1().marks[1 := Mark(2, High)] == Shadow2().marks;
    assert Shadow1().impacted[1 := Reported(High, 2)] == Shadow2().impacted;
  }

  /** From then on every function of the chain is found one edge later than it could be. */
  ghost predicate Late(d: nat, st: State) {
    && !st.truncated
    && 1 in st.marks && st.marks[1] == Mark(2, High)
    && 2 in st.marks && st.marks[2] == Mark(1, High)
    && (forall n :: n in st.marks && n >= 3 ==> n <= d && st.marks[n] == Mark(n, High))
  }

  lemma ChainIsLate(d: nat, st: State, cur: nat)
    requires 2 <= d <= NODE_CAP && Sound(st, [0]) && Late(d, st)
    requires cur in st.marks && (cur == 1 || cur >= 3) && st.marks[cur].depth < d
    ensures Late(d, Relax(st, [0], st.marks[cur], Hop(if cur == 1 then 3 else cur + 1, High)))
  {
    var to := if cur == 1 then 3 else cur + 1;
    if to !in st.marks {
      Interval(st.marks.Keys + {to}, d + 1);
      assert |st.marks.Keys + {to}| == |st.marks.Keys| + 1 == |st.marks| + 1;
    }
  }

  lemma FollowIsLate(d: nat, st: State, cur: nat)
    requires 2 <= d <= NODE_CAP && Sound(st, [0]) && Late(d, st)
    requires cur in st.marks && st.marks[cur].depth < d
    ensures Late(d, RelaxAll(st, [0], st.marks[cur], ShadowEdges(cur)))
  {
    var from := st.marks[cur];
    if cur == 0 {
      RelaxAllTwo(st, [0], from, Hop(2, High), Hop(1, Heuristic));
    } else if cur == 2 {
      RelaxAllOne(st, [0], from, Hop(1, High));
    } else {
      RelaxAllOne(st, [0], from, Hop(if cur == 1 then 3 else cur + 1, High));
      ChainIsLate(d, st, cur);
    }
  }

  lemma PopIsLate(d: nat, st: State)
    requires 2 <= d <= NODE_CAP && Sound(st, [0]) && Late(d, st) && st.queue != []
    ensures Late(d, Pop(st, Shadow(d), [0], d))
  {
    var cur := st.queue[0];
    var rest := st.(queue := st.queue[1..]);
    if st.marks[cur].depth < d {
      assert cur in Shadow(d) ==> Out(Shadow(d), cur) == ShadowEdges(cur);
      assert Sound(rest, [0]) && Late(d, rest);
      FollowIsLate(d, rest, cur);
    }
  }

  lemma {:induction false} RunIsLate(d: nat, st: State)
    requires 2 <= d <= NODE_CAP && Sound(st, [0]) && Late(d, st)
    ensures Late(d, Run(st, Shadow(d), [0], d))
    decreases Budget(st, [0]) + |st.queue|
  {
    if st.queue != [] {
      PopSpends(st, Shadow(d), [0], d);
      PopIsLate(d, st);
      RunIsLate(d, Pop(st, Shadow(d), [0], d));
    }
  }

  lemma RunStep(st: State, next: State, rev: Adjacency, seeds: seq<nat>, maxDepth: nat)
    requires Sound(st, seeds) && st.queue != [] && Pop(st, rev, seeds, maxDepth) == next
    ensures Sound(next, seeds) && Run(st, rev, seeds, maxDepth) == Run(next, rev, seeds, maxDepth)
  {
    PopSpends(st, rev, seeds, maxDepth);
  }

  lemma TwoStepsLate(d: nat, s0: State, s1: State, s2: State)
    requires 2 <= d <= NODE_CAP && Sound(s0, [0]) && s0.queue != [] && s1.queue != []
    requires Pop(s0, Shadow(d), [0], d) == s1
    requires s1.queue[0] in s1.marks && Pop(s1, Shadow(d), [0], d) == s2
    requires Late(d, s2)
    ensures Late(d, Run(s0, Shadow(d), [0], d))
  {
    RunStep(s0, s1, Shadow(d), [0], d);
    RunStep(s1, s2, Shadow(d), [0], d);
    RunIsLate(d, s2);
  }

  lemma ShadowIsLate(d: nat)
    requires 2 <= d <= NODE_CAP
    ensures Late(d, Result(Shadow(d), [0], d))
  {
    StartIsSound([0]);
    ShadowStep0(d);
    ShadowStep1(d);
    assert Late(d, Shadow2());
    TwoStepsLate(d, Start([0]), Shadow1(), Shadow2());
  }

  /** The chain, entered over the Heuristic edge. */
  lemma {:induction false} ShadowWalk(d: nat, n: nat) returns (w: seq<Edge>)
    requires 3 <= n <= d + 1
    ensures Walk(Shadow(d), 0, w, n) && |w| == n - 1
  {
    if n == 3 {
      assert Walk(Shadow(d), 0, [], 0);
      WalkExtend(Shadow(d), 0, [], 0, Hop(1, Heuristic));
      WalkExtend(Shadow(d), 0, [] + [Hop(1, Heuristic)], 1, Hop(3, High));
      w := [] + [Hop(1, Heuristic)] + [Hop(3, High)];
    } else {
      w := ShadowWalk(d, n - 1);
      WalkExtend(Shadow(d), 0, w, n - 1, Hop(n, High));
      w := w + [Hop(n, High)];
    }
  }

  // ---- The same as a graph ----

  function ShadowCall(i: nat): CallSite {
    if i == 0 then Calls(2, 0, High)
    else if i == 1 then Calls(1, 0, Heuristic)
    else if i == 2 then Calls(1, 2, High)
    else if i == 3 then Calls(3, 1, High)
    else Calls(i, i - 1, High)
  }

  function Calls(caller: nat, callee: nat, c: Confidence): CallSite {
    CallSite(caller, 0, 0, 0, Internal(callee, c, []))
  }

  /** Functions 1 and 2 call 0, with Heuristic and with High confidence; 1 calls 2, 3 calls 1, 4 calls
      3, and so forth. */
  function ShadowGraph(d: nat): Graph {
    Graph(seq(d + 2, _ => 0), seq(d + 2, i requires 0 <= i < d + 2 => ShadowCall(i)), [], [], [], [], [], [])
  }

  /** The adjacency after `i` calls. */
  function ShadowAfter(i: nat): Adjacency {
    if i == 0 then map[]
    else if i == 1 then map[0 := [Hop(2, High)]]
    else if i == 2 then map[0 := [Hop(2, High), Hop(1, Heuristic)]]
    else if i == 3 then map[0 := [Hop(2, High), Hop(1, Heuristic)], 2 := [Hop(1, High)]]
    else Shadow(i - 2)
  }

  function ShadowArc(i: nat): Arc {
    Arc(ShadowCall(i).resolution.callee, Hop(ShadowCall(i).caller, ShadowCall(i).resolution.confidence))
  }

  /** The first edge out of a function. */
  lemma FirstPush(rev: Adjacency, a: Arc)
    requires a.from !in rev
    ensures Push(rev, a) == rev[a.from := [a.edge]]
  {
    assert [] + [a.edge] == [a.edge];
  }

  lemma ShadowGrows(d: nat)
    requires d >= 3
    ensures Shadow(d - 1)[d := [Hop(d + 1, High)]] == Shadow(d)
  {
    var after := Shadow(d - 1)[d := [Hop(d + 1, High)]];
    assert after.Keys == Shadow(d).Keys;
    assert ShadowEdges(d) == [Hop(d + 1, High)];
    forall n | n in after.Keys
      ensures after[n] == Shadow(d)[n]
    {
      assert Shadow(d)[n] == ShadowEdges(n);
    }
  }

  lemma ShadowPush(i: nat)
    ensures Push(ShadowAfter(i), ShadowArc(i)) == ShadowAfter(i + 1)
  {
    if i == 1 {
      assert [Hop(2, High)] + [Hop(1, Heuristic)] == [Hop(2, High), Hop(1, Heuristic)];
    } else {
      FirstPush(ShadowAfter(i), ShadowArc(i));
      if i == 3 {
        var after := ShadowAfter(3)[1 := [Hop(3, High)]];
        assert after.Keys == Shadow(2).Keys;
        assert after[0] == ShadowEdges(0) && after[1] == ShadowEdges(1) && after[2] == ShadowEdges(2);
      } else if i >= 4 {
        ShadowGrows(i - 1);
      }
    }
  }

  lemma {:induction false} ShadowFills(parts: seq<seq<Arc>>)
    requires forall i :: 0 <= i < |parts| ==> parts[i] == [ShadowArc(i)]
    ensures Filled(Concat(parts)) == ShadowAfter(|parts|)
  {
    if parts != [] {
      var k := |parts| - 1;
      ShadowFills(parts[..k]);
      FilledPush(Concat(parts[..k]), ShadowArc(k));
      ShadowPush(k);
    }
  }

  lemma ShadowArcs(d: nat, i: nat)
    requires d >= 2 && i < d + 2
    ensures ShadowGraph(d).Valid()
    ensures CallArcs(ShadowGraph(d), i) == [ShadowArc(i)]
  {
    var g := ShadowGraph(d);
    forall c | c in g.calls
      ensures c.caller < d + 2
    {
      var k :| 0 <= k < d + 2 && g.calls[k] == c;
      assert c == ShadowCall(k);
    }
    assert g.calls[i] == ShadowCall(i) && g.calls[i] in g.calls;
    assert Ambiguous([], Edge(g.calls[i].caller, Heuristic, AmbiguousCall, SiteOf(g, g.calls[i]))) == [];
  }

  lemma OnlyCalls(g: Graph)
    requires g.Valid() && g.routeMatches == [] && g.bridgeMatches == []
    ensures Adjacent(g) == Filled(Concat(CallParts(g)))
  {
    assert Arcs(g) == Concat(CallParts(g));
  }

  lemma ShadowIsGraph(d: nat)
    requires d >= 2
    ensures ShadowGraph(d).Valid() && Adjacent(ShadowGraph(d)) == Shadow(d)
  {
    var g := ShadowGraph(d);
    ShadowArcs(d, 0);
    var parts := CallParts(g);
    forall i | 0 <= i < |parts|
      ensures parts[i] == [ShadowArc(i)]
    {
      ShadowArcs(d, i);
    }
    ShadowFills(parts);
    OnlyCalls(g);
  }

  /** Function `d + 1` is `d` edges from the seed, yet a search to depth `d` does not report it:
      function 1 is first queued at depth 1, then upgraded to depth 2 before its turn comes. */
  lemma UpgradeHidesFunction(d: nat)
    requires 2 <= d <= NODE_CAP
    ensures ShadowGraph(d).Valid()
    ensures var rev := Adjacent(ShadowGraph(d));
            var r := Result(rev, [0], d);
            && !r.truncated
            && Within(rev, [0], d, d + 1) && d + 1 !in r.impacted
            && Within(rev, [0], 1, 1) && 1 in r.impacted && r.impacted[1].depth == 2
  {
    ShadowIsGraph(d);
    ShadowIsLate(d);
    var w := ShadowWalk(d, d + 1);
    assert 0 in [0] && Walk(Shadow(d), 0, w, d + 1) && |w| <= d;
    assert Walk(Shadow(d), 0, [], 0);
    WalkExtend(Shadow(d), 0, [], 0, Hop(1, Heuristic));
    assert 0 in [0] && Walk(Shadow(d), 0, [] + [Hop(1, Heuristic)], 1);
  }

  /** For distinct seeds and nothing refused, a limit gives the closure on every graph exactly when it
      is at most 1, or above the node cap. */
  lemma PromiseByLimit(maxDepth: nat)
    ensures KeepsPromise(maxDepth) <==> maxDepth <= 1 || maxDepth > 5000
  {
    if maxDepth <= 1 || maxDepth > NODE_CAP {
      forall rev: Adjacency, seeds: seq<nat> | Distinct(seeds) && !Result(rev, seeds, maxDepth).truncated
        ensures Complete(rev, seeds, maxDepth, Result(rev, seeds, maxDepth).impacted)
      {
        if maxDepth <= 1 {
          ShallowIsComplete(rev, seeds, maxDepth);
        } else {
          DeepIsComplete(rev, seeds, maxDepth);
        }
      }
    } else {
      UpgradeHidesFunction(maxDepth);
      var rev := Adjacent(ShadowGraph(maxDepth));
      assert !Complete(rev, [0], maxDepth, Result(rev, [0], maxDepth).impacted);
    }
  }
}
