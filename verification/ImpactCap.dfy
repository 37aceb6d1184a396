/** The node cap of the change-impact search: when the result is flagged, and what bounds it. */
module ImpactCap {
  import opened Common
  import opened ImpactGraph
  import opened ImpactSearch
  import opened ImpactWalks
  import opened ImpactClosure

  // ---- The states of a run ----

  /** `x` is the state at some turn of the run from `st`. */
  ghost predicate OnRun(rev: Adjacency, seeds: seq<nat>, maxDepth: nat, st: State, x: State)
    requires Sound(st, seeds)
    decreases Budget(st, seeds) + |st.queue|
  {
    || x == st
    || (st.queue != [] &&
        (PopSpends(st, rev, seeds, maxDepth);
         OnRun(rev, seeds, maxDepth, Pop(st, rev, seeds, maxDepth), x)))
  }

  /** The function at the head of the queue is about to be expanded, and its edge `e` leads to a
      function that the final marks do not hold: that function is refused. */
  ghost predicate Refuses(rev: Adjacency, maxDepth: nat, x: State, last: State, e: Edge) {
    && x.queue != [] && x.queue[0] in x.marks && x.marks[x.queue[0]].depth < maxDepth
    && e in Out(rev, x.queue[0]) && e.to !in last.marks
  }

  ghost predicate RefusedOnRun(rev: Adjacency, seeds: seq<nat>, maxDepth: nat, st: State, last: State)
    requires Sound(st, seeds)
  {
    exists x, e :: OnRun(rev, seeds, maxDepth, st, x) && Refuses(rev, maxDepth, x, last, e)
  }

  /** Marks and the flag are never taken back, and a flagged search marks nothing new. */
  ghost predicate Keeps(st: State, r: State) {
    && st.marks.Keys <= r.marks.Keys
    && (st.truncated ==> r.truncated && r.marks.Keys == st.marks.Keys)
  }

  lemma FullKeeps(st: State, r: State, seeds: seq<nat>)
    requires Sound(st, seeds) && Sound(r, seeds)
    requires st.marks.Keys <= r.marks.Keys && (st.truncated ==> r.truncated)
    ensures Keeps(st, r)
  {
    assert |st.marks.Keys| == |st.marks| && |r.marks.Keys| == |r.marks|;
    if st.truncated {
      SubsetSame(st.marks.Keys, r.marks.Keys);
    }
  }

  lemma PopKeeps(rev: Adjacency, seeds: seq<nat>, maxDepth: nat, st: State)
    requires Sound(st, seeds) && st.queue != []
    ensures Sound(Pop(st, rev, seeds, maxDepth), seeds) && Keeps(st, Pop(st, rev, seeds, maxDepth))
  {
    var rest := st.(queue := st.queue[1..]);
    PopSpends(st, rev, seeds, maxDepth);
    assert Sound(rest, seeds);
    RelaxAllGrows(rest, seeds, st.marks[st.queue[0]], Out(rev, st.queue[0]));
    FullKeeps(st, Pop(st, rev, seeds, maxDepth), seeds);
  }

  lemma {:induction false} RunKeeps(rev: Adjacency, seeds: seq<nat>, maxDepth: nat, st: State)
    requires Sound(st, seeds)
    ensures Keeps(st, Run(st, rev, seeds, maxDepth))
    decreases Budget(st, seeds) + |st.queue|
  {
    if st.queue != [] {
      PopSpends(st, rev, seeds, maxDepth);
      PopKeeps(rev, seeds, maxDepth, st);
      RunKeeps(rev, seeds, maxDepth, Pop(st, rev, seeds, maxDepth));
    }
  }

  /** The flag goes up when an edge leads to a function that is left out. */
  lemma {:induction false} RelaxAllRefuses(st: State, seeds: seq<nat>, from: Mark, edges: seq<Edge>) returns (e: Edge)
    requires Sound(st, seeds) && !st.truncated && RelaxAll(st, seeds, from, edges).truncated
    ensures e in edges && e.to !in RelaxAll(st, seeds, from, edges).marks
    decreases |edges|
  {
    var n := |edges| - 1;
    var mid := RelaxAll(st, seeds, from, edges[..n]);
    RelaxAllSpends(st, seeds, from, edges[..n]);
    if mid.truncated {
      e := RelaxAllRefuses(st, seeds, from, edges[..n]);
      assert e in edges;
      RelaxSpends(mid, seeds, from, edges[n]);
      RelaxGrows(mid, seeds, from, edges[n]);
      FullKeeps(mid, RelaxAll(st, seeds, from, edges), seeds);
    } else {
      e := edges[n];
    }
  }

  /** A refused edge sets the flag. */
  lemma PopRefuses(rev: Adjacency, seeds: seq<nat>, maxDepth: nat, st: State, last: State, e: Edge)
    requires Sound(st, seeds) && Refuses(rev, maxDepth, st, last, e)
    requires Keeps(Pop(st, rev, seeds, maxDepth), last)
    ensures last.truncated
  {
    var rest := st.(queue := st.queue[1..]);
    assert Sound(rest, seeds);
    RelaxAllGrows(rest, seeds, st.marks[st.queue[0]], Out(rev, st.queue[0]));
    assert Covered(Pop(st, rev, seeds, maxDepth), st.marks[st.queue[0]].confidence, e);
  }

  lemma PopFlags(rev: Adjacency, seeds: seq<nat>, maxDepth: nat, st: State, last: State) returns (e: Edge)
    requires Sound(st, seeds) && st.queue != [] && !st.truncated
    requires Pop(st, rev, seeds, maxDepth).truncated && Keeps(Pop(st, rev, seeds, maxDepth), last)
    ensures Refuses(rev, maxDepth, st, last, e)
  {
    var rest := st.(queue := st.queue[1..]);
    assert Sound(rest, seeds);
    e := RelaxAllRefuses(rest, seeds, st.marks[st.queue[0]], Out(rev, st.queue[0]));
  }

  lemma {:induction false} RunFlags(rev: Adjacency, seeds: seq<nat>, maxDepth: nat, st: State)
    requires Sound(st, seeds)
    ensures var last := Run(st, rev, seeds, maxDepth);
            last.truncated <==> st.truncated || RefusedOnRun(rev, seeds, maxDepth, st, last)
    decreases Budget(st, seeds) + |st.queue|
  {
    var last := Run(st, rev, seeds, maxDepth);
    if st.queue != [] {
      var next := Pop(st, rev, seeds, maxDepth);
      PopSpends(st, rev, seeds, maxDepth);
      PopKeeps(rev, seeds, maxDepth, st);
      RunKeeps(rev, seeds, maxDepth, next);
      RunFlags(rev, seeds, maxDepth, next);
      if !st.truncated && next.truncated {
        var e := PopFlags(rev, seeds, maxDepth, st, last);
        assert OnRun(rev, seeds, maxDepth, st, st) && Refuses(rev, maxDepth, st, last, e);
      } else if !st.truncated && last.truncated {
        var x, e :| OnRun(rev, seeds, maxDepth, next, x) && Refuses(rev, maxDepth, x, last, e);
        assert OnRun(rev, seeds, maxDepth, st, x);
      }
      if x, e :| OnRun(rev, seeds, maxDepth, st, x) && Refuses(rev, maxDepth, x, last, e) {
        if x == st {
          PopRefuses(rev, seeds, maxDepth, st, last, e);
        } else {
          assert OnRun(rev, seeds, maxDepth, next, x);
        }
      }
    }
  }

  lemma ReportCount(st: State, seeds: seq<nat>)
    requires Sound(st, seeds)
    ensures |st.impacted| + |Elements(seeds)| == |st.marks|
  {
    assert st.marks.Keys == st.impacted.Keys + Elements(seeds);
    assert |st.marks| == |st.marks.Keys| && |st.impacted| == |st.impacted.Keys|;
    assert st.impacted.Keys !! Elements(seeds);
  }

  /** How many functions can be reported: 5000, and one more for every repeated seed. */
  function Capacity(seeds: seq<nat>): int {
    NODE_CAP + |seeds| - |Elements(seeds)|
  }

  /** No more than the capacity is reported, which is 5000 for distinct seeds. The result is flagged
      exactly when, at some turn, an expanded function leads to one that is left out; the capacity
      is then used up. */
  lemma NodeCap(rev: Adjacency, seeds: seq<nat>, maxDepth: nat)
    ensures Sound(Start(seeds), seeds)
    ensures var r := Result(rev, seeds, maxDepth);
            && |r.impacted| <= Capacity(seeds)
            && (Distinct(seeds) ==> Capacity(seeds) == 5000)
            && (r.truncated <==> RefusedOnRun(rev, seeds, maxDepth, Start(seeds), r))
            && (r.truncated ==> |r.impacted| == Capacity(seeds))
  {
    var r := Result(rev, seeds, maxDepth);
    StartIsSound(seeds);
    RunFlags(rev, seeds, maxDepth, Start(seeds));
    ReportCount(r, seeds);
    if Distinct(seeds) {
      DistinctCount(seeds);
    }
  }

  // ---- A refused function lies within the limit ----

  lemma {:induction false} OnRunGrounded(rev: Adjacency, seeds: seq<nat>, maxDepth: nat, st: State, x: State)
    requires Sound(st, seeds) && Grounded(rev, seeds, maxDepth, st) && OnRun(rev, seeds, maxDepth, st, x)
    ensures Sound(x, seeds) && Grounded(rev, seeds, maxDepth, x)
    decreases Budget(st, seeds) + |st.queue|
  {
    if x != st {
      PopSpends(st, rev, seeds, maxDepth);
      PopGrounded(rev, seeds, maxDepth, st);
      OnRunGrounded(rev, seeds, maxDepth, Pop(st, rev, seeds, maxDepth), x);
    }
  }

  lemma RefusedHead(rev: Adjacency, seeds: seq<nat>, maxDepth: nat, x: State, last: State, e: Edge)
    requires Grounded(rev, seeds, maxDepth, x) && Refuses(rev, maxDepth, x, last, e)
    ensures Within(rev, seeds, maxDepth, e.to)
  {
    var cur := x.queue[0];
    assert Witnessed(rev, seeds, x, cur);
    var s, w :| Witness(rev, seeds, x, cur, s, w);
    WalkExtend(rev, s, w, cur, e);
    assert s in seeds && Walk(rev, s, w + [e], e.to) && |w + [e]| <= maxDepth;
  }

  /** Behind the flag there is a function that a walk within the limit reaches, left out. */
  lemma RefusedIsWithin(rev: Adjacency, seeds: seq<nat>, maxDepth: nat) returns (n: nat)
    requires Result(rev, seeds, maxDepth).truncated
    ensures n !in seeds && n !in Result(rev, seeds, maxDepth).impacted && Within(rev, seeds, maxDepth, n)
  {
    var r := Result(rev, seeds, maxDepth);
    NodeCap(rev, seeds, maxDepth);
    var x, e :| OnRun(rev, seeds, maxDepth, Start(seeds), x) && Refuses(rev, maxDepth, x, r, e);
    StartGrounded(rev, seeds, maxDepth);
    OnRunGrounded(rev, seeds, maxDepth, Start(seeds), x);
    RefusedHead(rev, seeds, maxDepth, x, r, e);
    n := e.to;
  }

  // ---- How often a function is queued ----

  /** How often `n` is taken off the queue; the queue ends empty, so it was put on as often. */
  ghost function TurnsOf(rev: Adjacency, seeds: seq<nat>, maxDepth: nat, st: State, n: nat): nat
    requires Sound(st, seeds)
    decreases Budget(st, seeds) + |st.queue|
  {
    if st.queue == [] then 0
    else
      PopSpends(st, rev, seeds, maxDepth);
      (if st.queue[0] == n then 1 else 0) + TurnsOf(rev, seeds, maxDepth, Pop(st, rev, seeds, maxDepth), n)
  }

  /** How often `n` is on the queue, and can still be put on it: twice when unseen, once when
      Heuristic, never again when High. */
  ghost function Due(st: State, n: nat): nat {
    multiset(st.queue)[n] + if n !in st.marks then 2 else if st.marks[n].confidence == Heuristic then 1 else 0
  }

  lemma {:induction false} RelaxAllDue(st: State, seeds: seq<nat>, from: Mark, edges: seq<Edge>, n: nat)
    ensures Due(RelaxAll(st, seeds, from, edges), n) <= Due(st, n)
    decreases |edges|
  {
    if edges != [] {
      RelaxAllDue(st, seeds, from, edges[..|edges| - 1], n);
    }
  }

  lemma PopDue(rev: Adjacency, seeds: seq<nat>, maxDepth: nat, st: State, n: nat)
    requires Sound(st, seeds) && st.queue != []
    ensures Due(Pop(st, rev, seeds, maxDepth), n) + (if st.queue[0] == n then 1 else 0) <= Due(st, n)
  {
    var rest := st.(queue := st.queue[1..]);
    assert st.queue == [st.queue[0]] + rest.queue;
    RelaxAllDue(rest, seeds, st.marks[st.queue[0]], Out(rev, st.queue[0]), n);
  }

  lemma {:induction false} TurnsWithinDue(rev: Adjacency, seeds: seq<nat>, maxDepth: nat, st: State, n: nat)
    requires Sound(st, seeds)
    ensures TurnsOf(rev, seeds, maxDepth, st, n) <= Due(st, n)
    decreases Budget(st, seeds) + |st.queue|
  {
    if st.queue != [] {
      PopSpends(st, rev, seeds, maxDepth);
      PopDue(rev, seeds, maxDepth, st, n);
      TurnsWithinDue(rev, seeds, maxDepth, Pop(st, rev, seeds, maxDepth), n);
    }
  }

  /** Every function that is no seed is queued at most twice, and a seed as often as it is listed. */
  lemma QueuedAtMostTwice(rev: Adjacency, seeds: seq<nat>, maxDepth: nat, n: nat)
    ensures Sound(Start(seeds), seeds)
    ensures TurnsOf(rev, seeds, maxDepth, Start(seeds), n) <= if n in seeds then multiset(seeds)[n] else 2
  {
    StartIsSound(seeds);
    TurnsWithinDue(rev, seeds, maxDepth, Start(seeds), n);
  }
}
