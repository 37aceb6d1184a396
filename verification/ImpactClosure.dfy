/** What the search leaves settled behind it: the exact closure, the cap, the distances. */
module ImpactClosure {
  import opened Common
  import opened ImpactGraph
  import opened ImpactSearch
  import opened ImpactWalks

  /** Nothing more can come out of `e`, taken from a function of this confidence. */
  ghost predicate Covered(st: State, c: Confidence, e: Edge) {
    || st.truncated
    || (e.to in st.marks && (c == High && e.confidence == High ==> st.marks[e.to].confidence == High))
  }

  ghost predicate Settled(rev: Adjacency, maxDepth: nat, st: State, n: nat)
    requires n in st.marks
  {
    st.marks[n].depth < maxDepth ==> forall e :: e in Out(rev, n) ==> Covered(st, st.marks[n].confidence, e)
  }

  /** Only queued functions, and `busy` while its edges are scanned, may be unsettled. */
  ghost predicate Closed(rev: Adjacency, maxDepth: nat, st: State, busy: set<nat>) {
    forall n :: n in st.marks ==> n in st.queue || n in busy || Settled(rev, maxDepth, st, n)
  }

  /** Later states cover at least what earlier ones did. */
  ghost predicate Grows(st: State, r: State) {
    && (st.truncated ==> r.truncated)
    && (forall n :: n in st.marks ==> n in r.marks && (st.marks[n].confidence == High ==> r.marks[n] == st.marks[n]))
    && (forall n :: n in st.marks ==> n in r.queue || r.marks[n] == st.marks[n])
    && (forall n :: n in r.marks && n !in st.marks ==> n in r.queue)
    && (forall n :: n in st.queue ==> n in r.queue)
  }

  lemma RelaxGrows(st: State, seeds: seq<nat>, from: Mark, e: Edge)
    requires Sound(st, seeds)
    ensures var r := Relax(st, seeds, from, e); Grows(st, r) && Covered(r, from.confidence, e)
  {
  }

  lemma GrowsOn(st: State, mid: State, r: State)
    requires Grows(st, mid) && Grows(mid, r)
    ensures Grows(st, r)
    ensures forall c, e :: Covered(st, c, e) ==> Covered(r, c, e)
    ensures forall c, e :: Covered(mid, c, e) ==> Covered(r, c, e)
  {
  }

  lemma {:induction false} RelaxAllGrows(st: State, seeds: seq<nat>, from: Mark, edges: seq<Edge>)
    requires Sound(st, seeds)
    ensures var r := RelaxAll(st, seeds, from, edges);
            Grows(st, r) && forall e :: e in edges ==> Covered(r, from.confidence, e)
    decreases |edges|
  {
    if edges != [] {
      var n := |edges| - 1;
      var mid := RelaxAll(st, seeds, from, edges[..n]);
      RelaxAllGrows(st, seeds, from, edges[..n]);
      RelaxAllSpends(st, seeds, from, edges[..n]);
      RelaxGrows(mid, seeds, from, edges[n]);
      GrowsOn(st, mid, RelaxAll(st, seeds, from, edges));
      forall e | e in edges
        ensures Covered(RelaxAll(st, seeds, from, edges), from.confidence, e)
      {
        assert e in edges[..n] || e == edges[n];
      }
    }
  }

  lemma GrowsClosed(rev: Adjacency, maxDepth: nat, st: State, r: State, busy: set<nat>)
    requires Closed(rev, maxDepth, st, busy) && Grows(st, r)
    ensures Closed(rev, maxDepth, r, busy)
  {
    forall n | n in r.marks && n !in r.queue && n !in busy
      ensures Settled(rev, maxDepth, r, n)
    {
      assert Settled(rev, maxDepth, st, n);
    }
  }

  lemma TakeClosed(rev: Adjacency, maxDepth: nat, st: State)
    requires st.queue != [] && Closed(rev, maxDepth, st, {})
    ensures Closed(rev, maxDepth, st.(queue := st.queue[1..]), {st.queue[0]})
  {
    var rest := st.(queue := st.queue[1..]);
    forall n | n in rest.marks && n !in rest.queue && n != st.queue[0]
      ensures Settled(rev, maxDepth, rest, n)
    {
      assert Settled(rev, maxDepth, st, n);
    }
  }

  lemma PopClosed(rev: Adjacency, seeds: seq<nat>, maxDepth: nat, st: State)
    requires Sound(st, seeds) && Grounded(rev, seeds, maxDepth, st) && st.queue != []
    requires Closed(rev, maxDepth, st, {})
    ensures Closed(rev, maxDepth, Pop(st, rev, seeds, maxDepth), {})
  {
    var cur := st.queue[0];
    var rest := st.(queue := st.queue[1..]);
    TakeClosed(rev, maxDepth, st);
    var r := Pop(st, rev, seeds, maxDepth);
    if st.marks[cur].depth < maxDepth {
      SameMarksGrounded(rev, seeds, maxDepth, st, rest);
      RelaxAllGrounded(rev, seeds, maxDepth, rest, cur, Out(rev, cur));
      RelaxAllGrows(rest, seeds, st.marks[cur], Out(rev, cur));
      GrowsClosed(rev, maxDepth, rest, r, {cur});
      assert Settled(rev, maxDepth, r, cur);
    }
  }

  lemma {:induction false} RunClosed(rev: Adjacency, seeds: seq<nat>, maxDepth: nat, st: State)
    requires Sound(st, seeds) && Grounded(rev, seeds, maxDepth, st)
    requires Closed(rev, maxDepth, st, {})
    ensures Closed(rev, maxDepth, Run(st, rev, seeds, maxDepth), {})
    decreases Budget(st, seeds) + |st.queue|
  {
    if st.queue != [] {
      PopSpends(st, rev, seeds, maxDepth);
      PopGrounded(rev, seeds, maxDepth, st);
      PopClosed(rev, seeds, maxDepth, st);
      RunClosed(rev, seeds, maxDepth, Pop(st, rev, seeds, maxDepth));
    }
  }

  /** Every invariant of the loop, at its end. */
  lemma ResultInvariants(rev: Adjacency, seeds: seq<nat>, maxDepth: nat)
    ensures var r := Result(rev, seeds, maxDepth);
            Sound(r, seeds) && r.queue == [] && Grounded(rev, seeds, maxDepth, r) && Closed(rev, maxDepth, r, {})
  {
    StartIsSound(seeds);
    StartGrounded(rev, seeds, maxDepth);
    RunGrounded(rev, seeds, maxDepth, Start(seeds));
    RunClosed(rev, seeds, maxDepth, Start(seeds));
  }

  // ---- Depth ----

  /** The walk behind a reported function, in terms of the report alone. */
  ghost predicate Explains(rev: Adjacency, seeds: seq<nat>, impacted: map<nat, Impacted>, n: nat, s: nat,
      w: seq<Edge>)
    requires n in impacted
  {
    && s in seeds
    && Walk(rev, s, w, n)
    && |w| == impacted[n].depth
    && |w| >= 1
    && (impacted[n].confidence == High <==> AllHigh(w))
    && w[|w| - 1].via == impacted[n].via
    && w[|w| - 1].site == impacted[n].site
    && (forall i :: 0 <= i < |w| ==> w[i].to in impacted && w[i].to !in seeds)
    && (forall i, j :: 0 <= i < j < |w| ==> w[i].to != w[j].to)
  }

  ghost function Tos(w: seq<Edge>): seq<nat> {
    seq(|w|, i requires 0 <= i < |w| => w[i].to)
  }

  /** A reported depth is the length of a real, non-repeating walk whose worst edge is the
      reported confidence; so it is at most `max_depth` and at most the number of reports. */
  lemma DepthWitness(rev: Adjacency, seeds: seq<nat>, maxDepth: nat, n: nat)
    requires n in Result(rev, seeds, maxDepth).impacted
    ensures var impacted := Result(rev, seeds, maxDepth).impacted;
            && (exists s, w :: Explains(rev, seeds, impacted, n, s, w))
            && 1 <= impacted[n].depth <= maxDepth
            && impacted[n].depth <= |impacted|
  {
    ResultInvariants(rev, seeds, maxDepth);
    var r := Result(rev, seeds, maxDepth);
    assert Witnessed(rev, seeds, r, n);
    var s, w :| Witness(rev, seeds, r, n, s, w);
    WitnessExplains(rev, seeds, r, n, s, w);
    WalkFits(w, r.impacted);
  }

  lemma WitnessExplains(rev: Adjacency, seeds: seq<nat>, st: State, n: nat, s: nat, w: seq<Edge>)
    requires Sound(st, seeds) && n in st.impacted && n in st.marks && st.marks[n].depth >= 1
    requires Witness(rev, seeds, st, n, s, w)
    ensures Explains(rev, seeds, st.impacted, n, s, w)
  {
  }

  /** A walk through reported functions without repetition has at most as many edges as there are. */
  lemma WalkFits(w: seq<Edge>, impacted: map<nat, Impacted>)
    requires forall i :: 0 <= i < |w| ==> w[i].to in impacted
    requires forall i, j :: 0 <= i < j < |w| ==> w[i].to != w[j].to
    ensures |w| <= |impacted|
  {
    DistinctCount(Tos(w));
    SubsetCount(Elements(Tos(w)), impacted.Keys);
    assert |impacted.Keys| == |impacted|;
  }

  // ---- Exact closure ----

  lemma {:induction false} WalkIsMarked(rev: Adjacency, seeds: seq<nat>, maxDepth: nat, st: State, s: nat,
      w: seq<Edge>, n: nat)
    requires Sound(st, seeds) && st.queue == [] && Closed(rev, maxDepth, st, {}) && !st.truncated
    requires forall m :: m in st.marks ==> st.marks[m].depth < maxDepth
    requires s in seeds && Walk(rev, s, w, n)
    ensures n in st.marks
    ensures AllHigh(w) ==> st.marks[n].confidence == High
    decreases |w|
  {
    if w != [] {
      var k := |w| - 1;
      var m := End(s, w[..k]);
      WalkIsMarked(rev, seeds, maxDepth, st, s, w[..k], m);
      assert Settled(rev, maxDepth, st, m);
      assert Covered(st, st.marks[m].confidence, w[k]);
    }
  }

  /** When nothing was refused and the depth limit was not met, the search reports exactly the
      non-seed functions that a walk reaches, and marks High exactly those that an all-High walk
      reaches. */
  lemma ExactClosure(rev: Adjacency, seeds: seq<nat>, maxDepth: nat, n: nat)
    requires !Result(rev, seeds, maxDepth).truncated
    requires |Result(rev, seeds, maxDepth).impacted| < maxDepth
    ensures var impacted := Result(rev, seeds, maxDepth).impacted;
            && (n in impacted <==> n !in seeds && Reachable(rev, seeds, n))
            && (n in impacted ==> (impacted[n].confidence == High <==> HighReachable(rev, seeds, n)))
  {
    var r := Result(rev, seeds, maxDepth);
    ResultInvariants(rev, seeds, maxDepth);
    forall m | m in r.marks
      ensures r.marks[m].depth < maxDepth
    {
      if m in r.impacted {
        DepthWitness(rev, seeds, maxDepth, m);
      }
    }
    if n in r.impacted {
      assert Witnessed(rev, seeds, r, n);
      var s, w :| Witness(rev, seeds, r, n, s, w);
    }
    if n !in seeds && Reachable(rev, seeds, n) {
      var s, w :| s in seeds && Walk(rev, s, w, n);
      WalkIsMarked(rev, seeds, maxDepth, r, s, w, n);
    }
    if n !in seeds && HighReachable(rev, seeds, n) {
      var s, w :| s in seeds && Walk(rev, s, w, n) && AllHigh(w);
      WalkIsMarked(rev, seeds, maxDepth, r, s, w, n);
    }
  }
}
