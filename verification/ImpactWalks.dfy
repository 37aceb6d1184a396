/** Walks over the reverse adjacency, and what ties the marks of the search to them: at every step each
    recorded depth and confidence belongs to a real walk from a seed, through marked functions and
    without meeting one twice. */
module ImpactWalks {
  import opened Common
  import opened ImpactGraph
  import opened ImpactSearch

  // ---- Walks ----

  /** The function where a walk from `s` ends. */
  function End(s: nat, w: seq<Edge>): nat {
    if w == [] then s else w[|w| - 1].to
  }

  /** `w` is a walk from `s` to `n`: each edge leaves the function where the edges before it end. */
  ghost predicate Walk(rev: Adjacency, s: nat, w: seq<Edge>, n: nat)
    decreases |w|
  {
    && End(s, w) == n
    && (w != [] ==>
          var front := w[..|w| - 1];
          w[|w| - 1] in Out(rev, End(s, front)) && Walk(rev, s, front, End(s, front)))
  }

  ghost predicate AllHigh(w: seq<Edge>) {
    forall i :: 0 <= i < |w| ==> w[i].confidence == High
  }

  ghost predicate Reachable(rev: Adjacency, seeds: seq<nat>, n: nat) {
    exists s, w :: s in seeds && Walk(rev, s, w, n)
  }

  ghost predicate HighReachable(rev: Adjacency, seeds: seq<nat>, n: nat) {
    exists s, w :: s in seeds && Walk(rev, s, w, n) && AllHigh(w)
  }

  /** A walk of at most `maxDepth` edges leads to `n`. */
  ghost predicate Within(rev: Adjacency, seeds: seq<nat>, maxDepth: nat, n: nat) {
    exists s, w :: s in seeds && Walk(rev, s, w, n) && |w| <= maxDepth
  }

  ghost predicate HighWithin(rev: Adjacency, seeds: seq<nat>, maxDepth: nat, n: nat) {
    exists s, w :: s in seeds && Walk(rev, s, w, n) && AllHigh(w) && |w| <= maxDepth
  }

  lemma WalkExtend(rev: Adjacency, s: nat, w: seq<Edge>, n: nat, e: Edge)
    requires Walk(rev, s, w, n) && e in Out(rev, n)
    ensures Walk(rev, s, w + [e], e.to)
  {
    assert (w + [e])[..|w|] == w;
  }

  // ---- Every mark has a walk behind it ----

  /** A walk that accounts for the mark of `n`: its length is the recorded depth, its worst edge
      the recorded confidence, it meets no function twice and no seed after its first function,
      and its last edge is the one recorded with `n`. */
  ghost predicate Witness(rev: Adjacency, seeds: seq<nat>, st: State, n: nat, s: nat, w: seq<Edge>)
    requires n in st.marks
  {
    && s in seeds
    && Walk(rev, s, w, n)
    && |w| == st.marks[n].depth
    && (st.marks[n].confidence == High <==> AllHigh(w))
    && (forall i :: 0 <= i < |w| ==> w[i].to in st.impacted && w[i].to in st.marks)
    && (forall i, j :: 0 <= i < j < |w| ==> w[i].to != w[j].to)
    && (st.marks[n].confidence == High ==> forall i :: 0 <= i < |w| ==> st.marks[w[i].to].confidence == High)
    && (w != [] ==> n in st.impacted && st.impacted[n].via == w[|w| - 1].via && st.impacted[n].site == w[|w| - 1].site)
  }

  ghost predicate Witnessed(rev: Adjacency, seeds: seq<nat>, st: State, n: nat)
    requires n in st.marks
  {
    exists s, w :: Witness(rev, seeds, st, n, s, w)
  }

  ghost predicate Grounded(rev: Adjacency, seeds: seq<nat>, maxDepth: nat, st: State) {
    && (forall n :: n in st.marks ==> st.marks[n].depth <= maxDepth)
    && (forall n {:trigger Witnessed(rev, seeds, st, n)} :: n in st.marks ==> Witnessed(rev, seeds, st, n))
    && (forall n :: n in st.impacted ==> n in st.marks && st.marks[n].depth >= 1)
  }

  /** A recorded function is new, or rises from Heuristic to High. */
  ghost predicate Rises(st: State, n: nat, mark: Mark) {
    n !in st.marks || (st.marks[n].confidence == Heuristic && mark.confidence == High)
  }

  /** A witness survives the recording of another function. */
  lemma WitnessKept(rev: Adjacency, seeds: seq<nat>, st: State, e: Edge, mark: Mark, n: nat)
    requires n in st.marks && Witnessed(rev, seeds, st, n)
    requires n != e.to && Rises(st, e.to, mark)
    ensures Witnessed(rev, seeds, Record(st, e, mark), n)
  {
    var s, w :| Witness(rev, seeds, st, n, s, w);
    assert Witness(rev, seeds, Record(st, e, mark), n, s, w);
  }

  /** The walk to the function just taken off the queue, and one edge more. */
  lemma WitnessAdded(rev: Adjacency, seeds: seq<nat>, st: State, cur: nat, e: Edge, s: nat, w: seq<Edge>)
    requires cur in st.marks && Witness(rev, seeds, st, cur, s, w)
    requires e in Out(rev, cur)
    ensures var mark := Mark(st.marks[cur].depth + 1, Worse(st.marks[cur].confidence, e.confidence));
            Rises(st, e.to, mark) ==> Witness(rev, seeds, Record(st, e, mark), e.to, s, w + [e])
  {
    WalkExtend(rev, s, w, cur, e);
    var mark := Mark(st.marks[cur].depth + 1, Worse(st.marks[cur].confidence, e.confidence));
    var x := w + [e];
    assert x[|w|] == e && forall i :: 0 <= i < |w| ==> x[i] == w[i];
    if Rises(st, e.to, mark) {
      assert forall i :: 0 <= i < |w| ==> w[i].to != e.to;
    }
  }

  lemma RecordedWitness(rev: Adjacency, seeds: seq<nat>, st: State, cur: nat, e: Edge)
    requires cur in st.marks && Witnessed(rev, seeds, st, cur) && e in Out(rev, cur)
    ensures var mark := Mark(st.marks[cur].depth + 1, Worse(st.marks[cur].confidence, e.confidence));
            Rises(st, e.to, mark) ==> Witnessed(rev, seeds, Record(st, e, mark), e.to)
  {
    var s, w :| Witness(rev, seeds, st, cur, s, w);
    WitnessAdded(rev, seeds, st, cur, e, s, w);
  }

  lemma RecordGrounded(rev: Adjacency, seeds: seq<nat>, maxDepth: nat, st: State, cur: nat, e: Edge)
    requires Grounded(rev, seeds, maxDepth, st)
    requires cur in st.marks && st.marks[cur].depth < maxDepth && e in Out(rev, cur)
    ensures var mark := Mark(st.marks[cur].depth + 1, Worse(st.marks[cur].confidence, e.confidence));
            Rises(st, e.to, mark) ==> Grounded(rev, seeds, maxDepth, Record(st, e, mark))
  {
    var mark := Mark(st.marks[cur].depth + 1, Worse(st.marks[cur].confidence, e.confidence));
    var r := Record(st, e, mark);
    if Rises(st, e.to, mark) {
      assert Witnessed(rev, seeds, st, cur);
      RecordedWitness(rev, seeds, st, cur, e);
      forall n | n in r.marks && n != e.to
        ensures Witnessed(rev, seeds, r, n)
      {
        assert Witnessed(rev, seeds, st, n);
        WitnessKept(rev, seeds, st, e, mark, n);
      }
    }
  }

  /** Flags and queue do not matter to the marks' witnesses. */
  lemma SameMarksGrounded(rev: Adjacency, seeds: seq<nat>, maxDepth: nat, st: State, r: State)
    requires Grounded(rev, seeds, maxDepth, st)
    requires r.marks == st.marks && r.impacted == st.impacted
    ensures Grounded(rev, seeds, maxDepth, r)
  {
    forall n | n in r.marks
      ensures Witnessed(rev, seeds, r, n)
    {
      assert Witnessed(rev, seeds, st, n);
      var s, w :| Witness(rev, seeds, st, n, s, w);
      assert Witness(rev, seeds, r, n, s, w);
    }
  }

  lemma RelaxGrounded(rev: Adjacency, seeds: seq<nat>, maxDepth: nat, st: State, cur: nat, e: Edge)
    requires Grounded(rev, seeds, maxDepth, st)
    requires cur in st.marks && st.marks[cur].depth < maxDepth && e in Out(rev, cur)
    ensures var r := Relax(st, seeds, st.marks[cur], e);
            Grounded(rev, seeds, maxDepth, r) && cur in r.marks && r.marks[cur] == st.marks[cur]
  {
    var mark := Mark(st.marks[cur].depth + 1, Worse(st.marks[cur].confidence, e.confidence));
    var r := Relax(st, seeds, st.marks[cur], e);
    if r.marks == st.marks && r.impacted == st.impacted {
      SameMarksGrounded(rev, seeds, maxDepth, st, r);
    } else {
      RecordGrounded(rev, seeds, maxDepth, st, cur, e);
    }
  }

  lemma {:induction false} RelaxAllGrounded(rev: Adjacency, seeds: seq<nat>, maxDepth: nat, st: State, cur: nat,
      edges: seq<Edge>)
    requires Grounded(rev, seeds, maxDepth, st)
    requires cur in st.marks && st.marks[cur].depth < maxDepth && forall e :: e in edges ==> e in Out(rev, cur)
    ensures var r := RelaxAll(st, seeds, st.marks[cur], edges);
            Grounded(rev, seeds, maxDepth, r) && cur in r.marks && r.marks[cur] == st.marks[cur]
    decreases |edges|
  {
    if edges != [] {
      var n := |edges| - 1;
      RelaxAllGrounded(rev, seeds, maxDepth, st, cur, edges[..n]);
      RelaxGrounded(rev, seeds, maxDepth, RelaxAll(st, seeds, st.marks[cur], edges[..n]), cur, edges[n]);
    }
  }

  lemma PopGrounded(rev: Adjacency, seeds: seq<nat>, maxDepth: nat, st: State)
    requires Sound(st, seeds) && Grounded(rev, seeds, maxDepth, st) && st.queue != []
    ensures Grounded(rev, seeds, maxDepth, Pop(st, rev, seeds, maxDepth))
  {
    SameMarksGrounded(rev, seeds, maxDepth, st, st.(queue := st.queue[1..]));
    var cur := st.queue[0];
    if st.marks[cur].depth < maxDepth {
      RelaxAllGrounded(rev, seeds, maxDepth, st.(queue := st.queue[1..]), cur, Out(rev, cur));
    }
  }

  lemma StartGrounded(rev: Adjacency, seeds: seq<nat>, maxDepth: nat)
    ensures Grounded(rev, seeds, maxDepth, Start(seeds))
  {
    forall n | n in Start(seeds).marks
      ensures Witnessed(rev, seeds, Start(seeds), n)
    {
      assert Witness(rev, seeds, Start(seeds), n, n, []);
    }
  }

  lemma {:induction false} RunGrounded(rev: Adjacency, seeds: seq<nat>, maxDepth: nat, st: State)
    requires Sound(st, seeds) && Grounded(rev, seeds, maxDepth, st)
    ensures Grounded(rev, seeds, maxDepth, Run(st, rev, seeds, maxDepth))
    decreases Budget(st, seeds) + |st.queue|
  {
    if st.queue != [] {
      PopSpends(st, rev, seeds, maxDepth);
      PopGrounded(rev, seeds, maxDepth, st);
      RunGrounded(rev, seeds, maxDepth, Pop(st, rev, seeds, maxDepth));
    }
  }
}
