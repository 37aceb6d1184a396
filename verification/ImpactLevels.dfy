/** Where upgrades do no harm to the change-impact search: if every function that an all-High walk
    reaches within the limit also has a shortest walk that is all High, an upgrade never changes a
    depth, and the search goes through the functions level by level. */
module ImpactLevels {
  import opened Common
  import opened ImpactGraph
  import opened ImpactSearch
  import opened ImpactWalks
  import opened ImpactClosure
  import opened ImpactCap

  // ---- Distances ----

  /** `k` is the least number of edges of a walk from a seed to `n`. */
  ghost predicate Distance(rev: Adjacency, seeds: seq<nat>, n: nat, k: nat) {
    && (exists s, w :: s in seeds && Walk(rev, s, w, n) && |w| == k)
    && (forall s, w :: s in seeds && Walk(rev, s, w, n) ==> k <= |w|)
  }

  ghost predicate ShortestIsHigh(rev: Adjacency, seeds: seq<nat>, n: nat) {
    exists s, w :: s in seeds && Walk(rev, s, w, n) && AllHigh(w) && Distance(rev, seeds, n, |w|)
  }

  /** A condition on the graph alone: within the limit, High is never a detour. */
  ghost predicate NoHighDetour(rev: Adjacency, seeds: seq<nat>, maxDepth: nat) {
    forall n {:trigger HighWithin(rev, seeds, maxDepth, n)} ::
      HighWithin(rev, seeds, maxDepth, n) ==> ShortestIsHigh(rev, seeds, n)
  }

  lemma {:induction false} DistanceExists(rev: Adjacency, seeds: seq<nat>, n: nat, s: nat, w: seq<Edge>)
    returns (k: nat)
    requires s in seeds && Walk(rev, s, w, n)
    ensures Distance(rev, seeds, n, k) && k <= |w|
    decreases |w|
  {
    if s', w' :| s' in seeds && Walk(rev, s', w', n) && |w'| < |w| {
      k := DistanceExists(rev, seeds, n, s', w');
    } else {
      k := |w|;
    }
  }

  // ---- Level by level ----

  ghost predicate Followed(st: State, n: nat, e: Edge) {
    n in st.marks && e.to in st.marks && st.marks[e.to].depth <= st.marks[n].depth + 1
  }

  /** The queue holds at most two adjacent levels, `d` and then `d + 1`. */
  ghost predicate Ordered(st: State, d: nat) {
    && (forall n :: n in st.marks ==> st.marks[n].depth <= d + 1)
    && (forall i :: 0 <= i < |st.queue| ==> st.queue[i] in st.marks && d <= st.marks[st.queue[i]].depth)
    && (forall i, j :: 0 <= i < j < |st.queue| ==> st.marks[st.queue[i]].depth <= st.marks[st.queue[j]].depth)
  }

  /** The edges of every function that left the queue have been followed. */
  ghost predicate Explored(rev: Adjacency, maxDepth: nat, st: State, busy: set<nat>) {
    forall n, e {:trigger Followed(st, n, e)} {:trigger e in Out(rev, n)} ::
      n in st.marks && n !in st.queue && n !in busy && st.marks[n].depth < maxDepth && e in Out(rev, n) ==>
        Followed(st, n, e)
  }

  /** No walk from a seed is shorter than the recorded depth. */
  ghost predicate Shortest(rev: Adjacency, seeds: seq<nat>, st: State) {
    forall n, s, w :: n in st.marks && s in seeds && Walk(rev, s, w, n) ==> st.marks[n].depth <= |w|
  }

  ghost predicate Levelled(rev: Adjacency, seeds: seq<nat>, maxDepth: nat, st: State, busy: set<nat>, d: nat) {
    && Ordered(st, d)
    && Explored(rev, maxDepth, st, busy)
    && Shortest(rev, seeds, st)
  }

  /** What is still to be expanded lies at depth `d` or deeper. */
  ghost predicate Ahead(st: State, busy: set<nat>, d: nat) {
    forall m :: m in st.queue || m in busy ==> m in st.marks && d <= st.marks[m].depth
  }

  /** While depth `d` is being scanned, every walk of at most `d` edges ends at a marked function. */
  lemma {:induction false} ShortWalkIsMarked(rev: Adjacency, seeds: seq<nat>, maxDepth: nat, st: State,
      busy: set<nat>, d: nat, s: nat, w: seq<Edge>, n: nat)
    requires Sound(st, seeds) && Explored(rev, maxDepth, st, busy) && Shortest(rev, seeds, st)
    requires Ahead(st, busy, d)
    requires s in seeds && Walk(rev, s, w, n) && |w| <= d && |w| <= maxDepth
    ensures n in st.marks && st.marks[n].depth <= |w|
    decreases |w|
  {
    if w != [] {
      var k := |w| - 1;
      var m := End(s, w[..k]);
      ShortWalkIsMarked(rev, seeds, maxDepth, st, busy, d, s, w[..k], m);
      assert m !in st.queue && m !in busy && w[k] in Out(rev, m);
      assert Followed(st, m, w[k]);
    }
  }

  /** An all-High one ends at a function marked High. */
  lemma {:induction false} ShortHighIsHigh(rev: Adjacency, seeds: seq<nat>, maxDepth: nat, st: State,
      busy: set<nat>, d: nat, s: nat, w: seq<Edge>, n: nat)
    requires Sound(st, seeds) && Closed(rev, maxDepth, st, busy) && Shortest(rev, seeds, st) && !st.truncated
    requires Ahead(st, busy, d)
    requires s in seeds && Walk(rev, s, w, n) && AllHigh(w) && |w| <= d && |w| <= maxDepth
    ensures n in st.marks && st.marks[n].confidence == High
    decreases |w|
  {
    if w != [] {
      var k := |w| - 1;
      var m := End(s, w[..k]);
      ShortHighIsHigh(rev, seeds, maxDepth, st, busy, d, s, w[..k], m);
      assert Settled(rev, maxDepth, st, m);
      assert Covered(st, High, w[k]);
    }
  }

  // ---- One edge ----

  lemma DiscoverOrdered(st: State, d: nat, e: Edge, mark: Mark)
    requires Ordered(st, d) && mark.depth == d + 1 && (e.to in st.marks ==> st.marks[e.to].depth == d + 1)
    ensures Ordered(Record(st, e, mark), d)
  {
  }

  lemma DiscoverExplored(rev: Adjacency, maxDepth: nat, st: State, cur: nat, e: Edge, mark: Mark)
    requires Explored(rev, maxDepth, st, {cur}) && (e.to in st.marks ==> st.marks[e.to].depth == mark.depth)
    ensures Explored(rev, maxDepth, Record(st, e, mark), {cur})
  {
    var r := Record(st, e, mark);
    assert r.queue[|st.queue|] == e.to;
    forall n, x | n in r.marks && n !in r.queue && n != cur && r.marks[n].depth < maxDepth && x in Out(rev, n)
      ensures Followed(r, n, x)
    {
      assert forall m :: m in st.queue ==> m in r.queue;
      assert Followed(st, n, x);
    }
  }

  /** A function first met from depth `d` is `d + 1` edges away. */
  lemma DiscoveredIsFar(rev: Adjacency, seeds: seq<nat>, maxDepth: nat, st: State, cur: nat, to: nat, s: nat,
      w: seq<Edge>)
    requires Sound(st, seeds) && cur in st.marks && st.marks[cur].depth < maxDepth
    requires Levelled(rev, seeds, maxDepth, st, {cur}, st.marks[cur].depth)
    requires to !in st.marks && s in seeds && Walk(rev, s, w, to)
    ensures st.marks[cur].depth + 1 <= |w|
  {
    var d := st.marks[cur].depth;
    if |w| <= d {
      ShortWalkIsMarked(rev, seeds, maxDepth, st, {cur}, d, s, w, to);
    }
  }

  lemma MarkHasWalk(rev: Adjacency, seeds: seq<nat>, maxDepth: nat, st: State, n: nat) returns (s: nat, w: seq<Edge>)
    requires Grounded(rev, seeds, maxDepth, st) && n in st.marks
    ensures s in seeds && Walk(rev, s, w, n) && |w| == st.marks[n].depth
    ensures st.marks[n].confidence == High ==> AllHigh(w)
  {
    assert Witnessed(rev, seeds, st, n);
    s, w :| Witness(rev, seeds, st, n, s, w);
  }

  /** A High edge from a High function at depth `d` gives an all-High walk of `d + 1` edges. */
  lemma HighEdgeWithin(rev: Adjacency, seeds: seq<nat>, maxDepth: nat, st: State, cur: nat, e: Edge)
    requires Grounded(rev, seeds, maxDepth, st) && cur in st.marks && st.marks[cur].depth < maxDepth
    requires e in Out(rev, cur) && st.marks[cur].confidence == High && e.confidence == High
    ensures HighWithin(rev, seeds, maxDepth, e.to)
    ensures exists s, w :: s in seeds && Walk(rev, s, w, e.to) && |w| == st.marks[cur].depth + 1
  {
    var s, w := MarkHasWalk(rev, seeds, maxDepth, st, cur);
    WalkExtend(rev, s, w, cur, e);
    assert s in seeds && Walk(rev, s, w + [e], e.to) && AllHigh(w + [e]) && |w + [e]| <= maxDepth;
  }

  /** No all-High walk of at most `d` edges leads to a function that is still Heuristic. */
  lemma HeuristicIsFar(rev: Adjacency, seeds: seq<nat>, maxDepth: nat, st: State, cur: nat, to: nat,
      s: nat, w: seq<Edge>)
    requires Sound(st, seeds) && Closed(rev, maxDepth, st, {cur}) && Shortest(rev, seeds, st) && !st.truncated
    requires cur in st.marks && st.marks[cur].depth < maxDepth && Ordered(st, st.marks[cur].depth)
    requires to in st.marks && st.marks[to].confidence == Heuristic
    requires s in seeds && Walk(rev, s, w, to) && AllHigh(w)
    ensures st.marks[cur].depth < |w|
  {
    if |w| <= st.marks[cur].depth {
      ShortHighIsHigh(rev, seeds, maxDepth, st, {cur}, st.marks[cur].depth, s, w, to);
    }
  }

  /** Without High detours an upgrade finds the depth that is there already. */
  lemma UpgradeKeepsDepth(rev: Adjacency, seeds: seq<nat>, maxDepth: nat, st: State, cur: nat, e: Edge)
    requires Sound(st, seeds) && Grounded(rev, seeds, maxDepth, st) && NoHighDetour(rev, seeds, maxDepth)
    requires cur in st.marks && st.marks[cur].depth < maxDepth && e in Out(rev, cur) && !st.truncated
    requires Closed(rev, maxDepth, st, {cur})
    requires Levelled(rev, seeds, maxDepth, st, {cur}, st.marks[cur].depth)
    requires st.marks[cur].confidence == High && e.confidence == High
    requires e.to in st.marks && st.marks[e.to].confidence == Heuristic
    ensures st.marks[e.to].depth == st.marks[cur].depth + 1
  {
    var d := st.marks[cur].depth;
    HighEdgeWithin(rev, seeds, maxDepth, st, cur, e);
    assert ShortestIsHigh(rev, seeds, e.to);
    var s, w :| s in seeds && Walk(rev, s, w, e.to) && AllHigh(w) && Distance(rev, seeds, e.to, |w|);
    assert |w| <= d + 1;
    HeuristicIsFar(rev, seeds, maxDepth, st, cur, e.to, s, w);
    var s', w' := MarkHasWalk(rev, seeds, maxDepth, st, e.to);
    assert |w| <= |w'|;
  }

  ghost predicate Goes(rev: Adjacency, seeds: seq<nat>, maxDepth: nat, st: State, busy: set<nat>, d: nat) {
    && Sound(st, seeds)
    && Grounded(rev, seeds, maxDepth, st)
    && Closed(rev, maxDepth, st, busy)
    && Levelled(rev, seeds, maxDepth, st, busy, d)
  }

  /** A recorded function is new, or keeps its depth. */
  lemma RecordLevelled(rev: Adjacency, seeds: seq<nat>, maxDepth: nat, st: State, cur: nat, e: Edge, c: Confidence)
    requires Sound(st, seeds) && cur in st.marks && st.marks[cur].depth < maxDepth
    requires Levelled(rev, seeds, maxDepth, st, {cur}, st.marks[cur].depth)
    requires e.to in st.marks ==> st.marks[e.to].depth == st.marks[cur].depth + 1
    ensures Levelled(rev, seeds, maxDepth, Record(st, e, Mark(st.marks[cur].depth + 1, c)), {cur}, st.marks[cur].depth)
  {
    var mark := Mark(st.marks[cur].depth + 1, c);
    DiscoverOrdered(st, st.marks[cur].depth, e, mark);
    DiscoverExplored(rev, maxDepth, st, cur, e, mark);
    var r := Record(st, e, mark);
    forall n, s, w | n in r.marks && s in seeds && Walk(rev, s, w, n)
      ensures r.marks[n].depth <= |w|
    {
      if n !in st.marks {
        DiscoveredIsFar(rev, seeds, maxDepth, st, cur, n, s, w);
      }
    }
  }

  /** An edge that changes something, without raising the flag, records a new function or an upgrade. */
  lemma RelaxRecords(st: State, seeds: seq<nat>, from: Mark, e: Edge)
    requires Relax(st, seeds, from, e) != st && !Relax(st, seeds, from, e).truncated
    ensures Relax(st, seeds, from, e) == Record(st, e, Mark(from.depth + 1, Worse(from.confidence, e.confidence)))
    ensures e.to in st.marks ==>
              st.marks[e.to].confidence == Heuristic && from.confidence == High && e.confidence == High
    ensures !st.truncated
  {
  }

  lemma RelaxLevelled(rev: Adjacency, seeds: seq<nat>, maxDepth: nat, st: State, cur: nat, e: Edge)
    requires NoHighDetour(rev, seeds, maxDepth) && cur in st.marks && st.marks[cur].depth < maxDepth
    requires Goes(rev, seeds, maxDepth, st, {cur}, st.marks[cur].depth)
    requires e in Out(rev, cur) && !Relax(st, seeds, st.marks[cur], e).truncated
    ensures Levelled(rev, seeds, maxDepth, Relax(st, seeds, st.marks[cur], e), {cur}, st.marks[cur].depth)
  {
    var from := st.marks[cur];
    var c := Worse(from.confidence, e.confidence);
    if Relax(st, seeds, from, e) != st {
      RelaxRecords(st, seeds, from, e);
      if e.to in st.marks {
        UpgradeKeepsDepth(rev, seeds, maxDepth, st, cur, e);
      }
      RecordLevelled(rev, seeds, maxDepth, st, cur, e, c);
    }
  }

  lemma RelaxGoes(rev: Adjacency, seeds: seq<nat>, maxDepth: nat, st: State, cur: nat, e: Edge)
    requires NoHighDetour(rev, seeds, maxDepth) && cur in st.marks && st.marks[cur].depth < maxDepth
    requires Goes(rev, seeds, maxDepth, st, {cur}, st.marks[cur].depth)
    requires e in Out(rev, cur) && !Relax(st, seeds, st.marks[cur], e).truncated
    ensures var r := Relax(st, seeds, st.marks[cur], e);
            && cur in r.marks && r.marks[cur] == st.marks[cur]
            && Goes(rev, seeds, maxDepth, r, {cur}, st.marks[cur].depth)
  {
    RelaxLevelled(rev, seeds, maxDepth, st, cur, e);
    RelaxGrounded(rev, seeds, maxDepth, st, cur, e);
    RelaxSpends(st, seeds, st.marks[cur], e);
    RelaxGrows(st, seeds, st.marks[cur], e);
    GrowsClosed(rev, maxDepth, st, Relax(st, seeds, st.marks[cur], e), {cur});
  }

  lemma {:induction false} RelaxAllGoes(rev: Adjacency, seeds: seq<nat>, maxDepth: nat, st: State, cur: nat,
      edges: seq<Edge>)
    requires NoHighDetour(rev, seeds, maxDepth) && cur in st.marks && st.marks[cur].depth < maxDepth
    requires Goes(rev, seeds, maxDepth, st, {cur}, st.marks[cur].depth)
    requires (forall e :: e in edges ==> e in Out(rev, cur)) && !RelaxAll(st, seeds, st.marks[cur], edges).truncated
    ensures var r := RelaxAll(st, seeds, st.marks[cur], edges);
            && cur in r.marks && r.marks[cur] == st.marks[cur]
            && Goes(rev, seeds, maxDepth, r, {cur}, st.marks[cur].depth)
    decreases |edges|
  {
    if edges != [] {
      var n := |edges| - 1;
      var mid := RelaxAll(st, seeds, st.marks[cur], edges[..n]);
      RelaxAllSpends(st, seeds, st.marks[cur], edges[..n]);
      RelaxGrows(mid, seeds, st.marks[cur], edges[n]);
      RelaxAllGoes(rev, seeds, maxDepth, st, cur, edges[..n]);
      RelaxGoes(rev, seeds, maxDepth, mid, cur, edges[n]);
    }
  }

  // ---- One turn, and the whole run ----

  /** The head of the queue is taken; its edges have still to be followed. */
  lemma TakeLevelled(rev: Adjacency, seeds: seq<nat>, maxDepth: nat, st: State, d: nat)
    requires st.queue != [] && Levelled(rev, seeds, maxDepth, st, {}, d)
    ensures var cur := st.queue[0];
            Levelled(rev, seeds, maxDepth, st.(queue := st.queue[1..]), {cur}, st.marks[cur].depth)
  {
    var cur := st.queue[0];
    var rest := st.(queue := st.queue[1..]);
    forall n, e | n in rest.marks && n !in rest.queue && n != cur && rest.marks[n].depth < maxDepth && e in Out(rev, n)
      ensures Followed(rest, n, e)
    {
      assert Followed(st, n, e);
    }
  }

  lemma TakeGoes(rev: Adjacency, seeds: seq<nat>, maxDepth: nat, st: State, d: nat)
    requires st.queue != [] && Goes(rev, seeds, maxDepth, st, {}, d)
    ensures var cur := st.queue[0];
            Goes(rev, seeds, maxDepth, st.(queue := st.queue[1..]), {cur}, st.marks[cur].depth)
  {
    var rest := st.(queue := st.queue[1..]);
    TakeLevelled(rev, seeds, maxDepth, st, d);
    SameMarksGrounded(rev, seeds, maxDepth, st, rest);
    TakeClosed(rev, maxDepth, st);
  }

  /** Once all its edges were followed, the function taken is explored and settled. */
  lemma Expanded(rev: Adjacency, seeds: seq<nat>, maxDepth: nat, st: State, cur: nat, d: nat)
    requires Goes(rev, seeds, maxDepth, st, {cur}, d) && !st.truncated
    requires cur in st.marks && st.marks[cur].depth == d
    requires d < maxDepth ==> forall e :: e in Out(rev, cur) ==> Covered(st, st.marks[cur].confidence, e)
    ensures Goes(rev, seeds, maxDepth, st, {}, d)
  {
    assert Settled(rev, maxDepth, st, cur);
    forall n, e | n in st.marks && n !in st.queue && st.marks[n].depth < maxDepth && e in Out(rev, n)
      ensures Followed(st, n, e)
    {
      if n == cur {
        assert Covered(st, st.marks[cur].confidence, e);
      }
    }
  }

  lemma PopGoes(rev: Adjacency, seeds: seq<nat>, maxDepth: nat, st: State, d: nat)
    requires NoHighDetour(rev, seeds, maxDepth) && st.queue != []
    requires Goes(rev, seeds, maxDepth, st, {}, d) && !Pop(st, rev, seeds, maxDepth).truncated
    ensures Goes(rev, seeds, maxDepth, Pop(st, rev, seeds, maxDepth), {}, st.marks[st.queue[0]].depth)
  {
    var cur := st.queue[0];
    var rest := st.(queue := st.queue[1..]);
    TakeGoes(rev, seeds, maxDepth, st, d);
    if st.marks[cur].depth < maxDepth {
      RelaxAllGoes(rev, seeds, maxDepth, rest, cur, Out(rev, cur));
      RelaxAllGrows(rest, seeds, st.marks[cur], Out(rev, cur));
    }
    Expanded(rev, seeds, maxDepth, Pop(st, rev, seeds, maxDepth), cur, st.marks[cur].depth);
  }

  lemma {:induction false} RunGoes(rev: Adjacency, seeds: seq<nat>, maxDepth: nat, st: State, d: nat)
    returns (last: nat)
    requires NoHighDetour(rev, seeds, maxDepth)
    requires Goes(rev, seeds, maxDepth, st, {}, d) && !Run(st, rev, seeds, maxDepth).truncated
    ensures Goes(rev, seeds, maxDepth, Run(st, rev, seeds, maxDepth), {}, last)
    decreases Budget(st, seeds) + |st.queue|
  {
    last := d;
    if st.queue != [] {
      var next := Pop(st, rev, seeds, maxDepth);
      PopSpends(st, rev, seeds, maxDepth);
      RunKeeps(rev, seeds, maxDepth, next);
      PopGoes(rev, seeds, maxDepth, st, d);
      last := RunGoes(rev, seeds, maxDepth, next, st.marks[st.queue[0]].depth);
    }
  }

  /** Every invariant at the end. */
  lemma ResultGoes(rev: Adjacency, seeds: seq<nat>, maxDepth: nat) returns (last: nat)
    requires NoHighDetour(rev, seeds, maxDepth) && !Result(rev, seeds, maxDepth).truncated
    ensures Goes(rev, seeds, maxDepth, Result(rev, seeds, maxDepth), {}, last)
  {
    StartIsSound(seeds);
    StartGrounded(rev, seeds, maxDepth);
    last := RunGoes(rev, seeds, maxDepth, Start(seeds), 0);
  }

  // ---- The depth limit kept ----

  /** The functions up to `maxDepth` edges away are reported, with the best achievable confidence. */
  ghost predicate Complete(rev: Adjacency, seeds: seq<nat>, maxDepth: nat, impacted: map<nat, Impacted>) {
    forall n: nat ::
      && (n in impacted <==> n !in seeds && Within(rev, seeds, maxDepth, n))
      && (n in impacted ==> (impacted[n].confidence == High <==> HighWithin(rev, seeds, maxDepth, n)))
  }

  ghost predicate Distances(rev: Adjacency, seeds: seq<nat>, impacted: map<nat, Impacted>) {
    forall n: nat :: n in impacted ==> Distance(rev, seeds, n, impacted[n].depth)
  }

  lemma ReportedIsWithin(rev: Adjacency, seeds: seq<nat>, maxDepth: nat, n: nat)
    requires n in Result(rev, seeds, maxDepth).impacted
    ensures n !in seeds && Within(rev, seeds, maxDepth, n)
    ensures Result(rev, seeds, maxDepth).impacted[n].confidence == High ==> HighWithin(rev, seeds, maxDepth, n)
  {
    var impacted := Result(rev, seeds, maxDepth).impacted;
    DepthWitness(rev, seeds, maxDepth, n);
    var s, w :| Explains(rev, seeds, impacted, n, s, w);
    assert s in seeds && Walk(rev, s, w, n) && |w| <= maxDepth;
  }

  /** What lies within the limit is reported, with the best confidence and its distance. */
  lemma WithinIsReported(rev: Adjacency, seeds: seq<nat>, maxDepth: nat, n: nat)
    requires NoHighDetour(rev, seeds, maxDepth) && !Result(rev, seeds, maxDepth).truncated
    requires n !in seeds && Within(rev, seeds, maxDepth, n)
    ensures var impacted := Result(rev, seeds, maxDepth).impacted;
            && n in impacted && Distance(rev, seeds, n, impacted[n].depth)
            && (HighWithin(rev, seeds, maxDepth, n) ==> impacted[n].confidence == High)
  {
    var r := Result(rev, seeds, maxDepth);
    var last := ResultGoes(rev, seeds, maxDepth);
    var s, w :| s in seeds && Walk(rev, s, w, n) && |w| <= maxDepth;
    ShortWalkIsMarked(rev, seeds, maxDepth, r, {}, maxDepth, s, w, n);
    var s', w' := MarkHasWalk(rev, seeds, maxDepth, r, n);
    if HighWithin(rev, seeds, maxDepth, n) {
      var s1, w1 :| s1 in seeds && Walk(rev, s1, w1, n) && AllHigh(w1) && |w1| <= maxDepth;
      ShortHighIsHigh(rev, seeds, maxDepth, r, {}, maxDepth, s1, w1, n);
    }
  }

  /** Without High detours, and with nothing refused, the limit is kept. */
  lemma NoDetourSuffices(rev: Adjacency, seeds: seq<nat>, maxDepth: nat)
    requires NoHighDetour(rev, seeds, maxDepth) && !Result(rev, seeds, maxDepth).truncated
    ensures var impacted := Result(rev, seeds, maxDepth).impacted;
            Complete(rev, seeds, maxDepth, impacted) && Distances(rev, seeds, impacted)
  {
    var impacted := Result(rev, seeds, maxDepth).impacted;
    forall n: nat
      ensures n in impacted <==> n !in seeds && Within(rev, seeds, maxDepth, n)
      ensures n in impacted ==> (impacted[n].confidence == High <==> HighWithin(rev, seeds, maxDepth, n))
      ensures n in impacted ==> Distance(rev, seeds, n, impacted[n].depth)
    {
      if n in impacted {
        ReportedIsWithin(rev, seeds, maxDepth, n);
      }
      if n !in seeds && Within(rev, seeds, maxDepth, n) {
        WithinIsReported(rev, seeds, maxDepth, n);
      }
    }
  }

  // ---- Edges of one confidence ----

  ghost predicate Uniform(rev: Adjacency, c: Confidence) {
    forall n, e :: e in Out(rev, n) ==> e.confidence == c
  }

  lemma {:induction false} UniformWalk(rev: Adjacency, c: Confidence, s: nat, w: seq<Edge>, n: nat)
    requires Uniform(rev, c) && Walk(rev, s, w, n)
    ensures forall i :: 0 <= i < |w| ==> w[i].confidence == c
    decreases |w|
  {
    if w != [] {
      var k := |w| - 1;
      UniformWalk(rev, c, s, w[..k], End(s, w[..k]));
    }
  }

  lemma UniformHasNoDetour(rev: Adjacency, seeds: seq<nat>, maxDepth: nat, c: Confidence)
    requires Uniform(rev, c)
    ensures NoHighDetour(rev, seeds, maxDepth)
  {
    forall n | HighWithin(rev, seeds, maxDepth, n)
      ensures ShortestIsHigh(rev, seeds, n)
    {
      var s, w :| s in seeds && Walk(rev, s, w, n) && AllHigh(w) && |w| <= maxDepth;
      UniformWalk(rev, c, s, w, n);
      var k := DistanceExists(rev, seeds, n, s, w);
      var s', w' :| s' in seeds && Walk(rev, s', w', n) && |w'| == k;
      UniformWalk(rev, c, s', w', n);
    }
  }

  /** When all edges carry one confidence and nothing is refused, the search reports exactly the
      functions at distance 1 to `maxDepth` from the seeds, each with its distance. */
  lemma UniformDistances(rev: Adjacency, seeds: seq<nat>, maxDepth: nat, c: Confidence, n: nat)
    requires Uniform(rev, c) && !Result(rev, seeds, maxDepth).truncated
    ensures var impacted := Result(rev, seeds, maxDepth).impacted;
            && (n in impacted ==> Distance(rev, seeds, n, impacted[n].depth) && impacted[n].confidence == c)
            && (n in impacted <==> exists k: nat :: 1 <= k <= maxDepth && Distance(rev, seeds, n, k))
  {
    var impacted := Result(rev, seeds, maxDepth).impacted;
    UniformHasNoDetour(rev, seeds, maxDepth, c);
    NoDetourSuffices(rev, seeds, maxDepth);
    if n in impacted {
      DepthWitness(rev, seeds, maxDepth, n);
      var s, w :| Explains(rev, seeds, impacted, n, s, w);
      UniformWalk(rev, c, s, w, n);
    }
    if k: nat :| 1 <= k <= maxDepth && Distance(rev, seeds, n, k) {
      var s, w :| s in seeds && Walk(rev, s, w, n) && |w| == k;
      assert Within(rev, seeds, maxDepth, n);
      assert n in seeds ==> Walk(rev, n, [], n);
    }
  }
}
