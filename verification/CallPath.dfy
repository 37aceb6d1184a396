/** The shortest chain of calls from one function to another, by breadth-first search over resolved
    calls with a back pointer for every function found, and a walk back along them. */
module CallPath {
  import opened Common
  import opened CallGraph

  /** `byCaller[f]` lists the calls made in function `f`. */
  datatype Graph = Graph(calls: seq<CallSite>, byCaller: seq<seq<nat>>)
  {
    ghost predicate Valid() {
      && (forall f, k :: 0 <= f < |byCaller| && 0 <= k < |byCaller[f]| ==>
            byCaller[f][k] < |calls| && calls[byCaller[f][k]].caller == f)
      && (forall c :: c in calls && c.resolution.Internal? ==> c.resolution.callee < |byCaller|)
    }

    /** Call `ci` in function `u` resolves to function `v`. */
    ghost predicate Edge(u: nat, ci: nat, v: nat) {
      u < |byCaller| && ci in byCaller[u] && ci < |calls|
      && calls[ci].resolution.Internal? && calls[ci].resolution.callee == v
    }

    /** The calls of `w` lead from `s` to `t`, each made in the function the one before it calls. */
    ghost predicate Chain(s: nat, w: seq<nat>, t: nat)
      decreases |w|
    {
      if w == [] then s == t
      else var k := |w| - 1; exists u :: Edge(u, w[k], t) && Chain(s, w[..k], u)
    }
  }

  lemma ChainExtend(g: Graph, s: nat, w: seq<nat>, u: nat, ci: nat, v: nat)
    requires g.Chain(s, w, u) && g.Edge(u, ci, v)
    ensures g.Chain(s, w + [ci], v)
  {
    assert (w + [ci])[..|w|] == w;
  }

  lemma {:induction false} ChainPrepend(g: Graph, p: nat, ci: nat, n: nat, w: seq<nat>, t: nat)
    requires g.Edge(p, ci, n) && g.Chain(n, w, t)
    ensures g.Chain(p, [ci] + w, t)
    decreases |w|
  {
    if w == [] {
      assert [ci] + w == [] + [ci];
      ChainExtend(g, p, [], p, ci, n);
    } else {
      var k := |w| - 1;
      var u :| g.Edge(u, w[k], t) && g.Chain(n, w[..k], u);
      ChainPrepend(g, p, ci, n, w[..k], u);
      ChainExtend(g, p, [ci] + w[..k], u, w[k], t);
      assert [ci] + w == ([ci] + w[..k]) + [w[k]];
    }
  }

  // ---- The search ----

  /** How deep each function found lies, how it was reached, and which are still to be expanded. */
  datatype State = State(depthOf: map<nat, nat>, prev: map<nat, (nat, nat)>, queue: seq<nat>)

  /** Back pointers lead one level up, along real calls. */
  ghost predicate Linked(g: Graph, src: nat, st: State) {
    && src in st.depthOf && st.depthOf[src] == 0
    && (forall n :: n in st.depthOf ==> n < |g.byCaller|)
    && (forall n :: n in st.depthOf && n != src ==> LinkedAt(g, st, n))
  }

  ghost predicate LinkedAt(g: Graph, st: State, n: nat) {
    && n in st.depthOf && n in st.prev
    && st.prev[n].0 in st.depthOf
    && st.depthOf[n] == st.depthOf[st.prev[n].0] + 1
    && g.Edge(st.prev[n].0, st.prev[n].1, n)
  }

  /** No chain is shorter than the recorded depth. */
  ghost predicate Shortest(g: Graph, src: nat, st: State) {
    forall n, w :: n in st.depthOf && g.Chain(src, w, n) ==> st.depthOf[n] <= |w|
  }

  /** The queue holds depth `d` and then `d + 1`, and nothing deeper was found. */
  ghost predicate Ordered(st: State, d: nat) {
    && (forall n :: n in st.depthOf ==> st.depthOf[n] <= d + 1)
    && (forall i :: 0 <= i < |st.queue| ==> st.queue[i] in st.depthOf && d <= st.depthOf[st.queue[i]])
    && (forall i, j :: 0 <= i < j < |st.queue| ==> st.depthOf[st.queue[i]] <= st.depthOf[st.queue[j]])
  }

  ghost predicate Followed(st: State, u: nat, v: nat) {
    u in st.depthOf && v in st.depthOf && st.depthOf[v] <= st.depthOf[u] + 1
  }

  /** The calls of every function that left the queue have been followed. */
  ghost predicate Explored(g: Graph, maxDepth: nat, st: State, busy: set<nat>) {
    forall u, ci, v {:trigger g.Edge(u, ci, v)} ::
      g.Edge(u, ci, v) && u in st.depthOf && u !in st.queue && u !in busy && st.depthOf[u] < maxDepth ==>
        Followed(st, u, v)
  }

  ghost predicate Inv(g: Graph, src: nat, maxDepth: nat, st: State, busy: set<nat>, d: nat) {
    Linked(g, src, st) && Shortest(g, src, st) && Ordered(st, d) && Explored(g, maxDepth, st, busy)
  }

  lemma {:induction false} ShortChainIsFound(g: Graph, src: nat, maxDepth: nat, st: State, busy: set<nat>,
      d: nat, w: seq<nat>, n: nat)
    requires Linked(g, src, st) && Shortest(g, src, st) && Explored(g, maxDepth, st, busy)
    requires forall m :: m in st.queue || m in busy ==> m in st.depthOf && d <= st.depthOf[m]
    requires g.Chain(src, w, n) && |w| <= d && |w| <= maxDepth
    ensures n in st.depthOf && st.depthOf[n] <= |w|
    decreases |w|
  {
    if w != [] {
      var k := |w| - 1;
      var u :| g.Edge(u, w[k], n) && g.Chain(src, w[..k], u);
      ShortChainIsFound(g, src, maxDepth, st, busy, d, w[..k], u);
      assert Followed(st, u, n);
    }
  }

  function Found(st: State, cur: nat, ci: nat, v: nat): State
    requires cur in st.depthOf
  {
    State(st.depthOf[v := st.depthOf[cur] + 1], st.prev[v := (cur, ci)], st.queue + [v])
  }

  lemma FoundLinked(g: Graph, src: nat, st: State, cur: nat, ci: nat, v: nat)
    requires g.Valid() && Linked(g, src, st) && cur in st.depthOf && g.Edge(cur, ci, v) && v !in st.depthOf
    ensures Linked(g, src, Found(st, cur, ci, v))
  {
    var r := Found(st, cur, ci, v);
    assert g.calls[ci] in g.calls;
    forall n | n in r.depthOf && n != src
      ensures LinkedAt(g, r, n)
    {
      if n != v {
        assert LinkedAt(g, st, n);
      }
    }
  }

  lemma FoundExplored(g: Graph, maxDepth: nat, st: State, cur: nat, ci: nat, v: nat)
    requires cur in st.depthOf && v !in st.depthOf && Explored(g, maxDepth, st, {cur})
    ensures Explored(g, maxDepth, Found(st, cur, ci, v), {cur})
    ensures forall u, x :: Followed(st, u, x) ==> Followed(Found(st, cur, ci, v), u, x)
  {
    var r := Found(st, cur, ci, v);
    forall u, c, x | g.Edge(u, c, x) && u in r.depthOf && u !in r.queue && u !in {cur} && r.depthOf[u] < maxDepth
      ensures Followed(r, u, x)
    {
      assert v in r.queue && forall m :: m in st.queue ==> m in r.queue;
      assert Followed(st, u, x);
    }
  }

  lemma FoundShortest(g: Graph, src: nat, maxDepth: nat, st: State, cur: nat, ci: nat, v: nat)
    requires cur in st.depthOf && st.depthOf[cur] < maxDepth && v !in st.depthOf
    requires Inv(g, src, maxDepth, st, {cur}, st.depthOf[cur])
    ensures Shortest(g, src, Found(st, cur, ci, v))
  {
    var d := st.depthOf[cur];
    forall w | g.Chain(src, w, v)
      ensures d + 1 <= |w|
    {
      if |w| <= d {
        ShortChainIsFound(g, src, maxDepth, st, {cur}, d, w, v);
      }
    }
  }

  /** A function first met from `cur` lies one deeper. */
  lemma FoundKeeps(g: Graph, src: nat, maxDepth: nat, st: State, cur: nat, ci: nat, v: nat)
    requires g.Valid() && cur in st.depthOf && st.depthOf[cur] < maxDepth
    requires Inv(g, src, maxDepth, st, {cur}, st.depthOf[cur])
    requires g.Edge(cur, ci, v) && v !in st.depthOf
    ensures Inv(g, src, maxDepth, Found(st, cur, ci, v), {cur}, st.depthOf[cur])
    ensures forall u, x :: Followed(st, u, x) ==> Followed(Found(st, cur, ci, v), u, x)
  {
    FoundLinked(g, src, st, cur, ci, v);
    FoundExplored(g, maxDepth, st, cur, ci, v);
    FoundShortest(g, src, maxDepth, st, cur, ci, v);
  }

  ghost predicate FollowedCall(g: Graph, st: State, cur: nat, ci: nat) {
    ci < |g.calls| && (g.calls[ci].resolution.Internal? ==> Followed(st, cur, g.calls[ci].resolution.callee))
  }

  /** One call of the function being expanded. */
  function Step(g: Graph, st: State, cur: nat, ci: nat): State
    requires cur in st.depthOf && ci < |g.calls|
  {
    var r := g.calls[ci].resolution;
    if r.Internal? && r.callee !in st.depthOf then Found(st, cur, ci, r.callee) else st
  }

  /** The first `k` calls of the function have been followed. */
  ghost predicate FollowedUpTo(g: Graph, st: State, cur: nat, k: nat) {
    && cur < |g.byCaller| && k <= |g.byCaller[cur]|
    && forall j :: 0 <= j < k ==> FollowedCall(g, st, cur, g.byCaller[cur][j])
  }

  lemma StepKeeps(g: Graph, src: nat, maxDepth: nat, st: State, cur: nat, k: nat)
    requires g.Valid() && cur in st.depthOf && st.depthOf[cur] < maxDepth
    requires Inv(g, src, maxDepth, st, {cur}, st.depthOf[cur])
    requires FollowedUpTo(g, st, cur, k) && k < |g.byCaller[cur]|
    ensures var r := Step(g, st, cur, g.byCaller[cur][k]);
            && cur in r.depthOf && r.depthOf[cur] == st.depthOf[cur]
            && Inv(g, src, maxDepth, r, {cur}, st.depthOf[cur])
            && FollowedUpTo(g, r, cur, k + 1)
            && |r.depthOf| - |r.queue| == |st.depthOf| - |st.queue|
  {
    var ci := g.byCaller[cur][k];
    var r := g.calls[ci].resolution;
    if r.Internal? && r.callee !in st.depthOf {
      assert g.Edge(cur, ci, r.callee);
      FoundKeeps(g, src, maxDepth, st, cur, ci, r.callee);
      UpdateCount(st.depthOf, r.callee, st.depthOf[cur] + 1);
    }
    FollowedOneMore(g, st, Step(g, st, cur, ci), cur, k);
  }

  lemma FollowedOneMore(g: Graph, st: State, r: State, cur: nat, k: nat)
    requires FollowedUpTo(g, st, cur, k) && k < |g.byCaller[cur]|
    requires forall u, x :: Followed(st, u, x) ==> Followed(r, u, x)
    requires FollowedCall(g, r, cur, g.byCaller[cur][k])
    ensures FollowedUpTo(g, r, cur, k + 1)
  {
    forall j | 0 <= j < k + 1
      ensures FollowedCall(g, r, cur, g.byCaller[cur][j])
    {
      if j < k {
        assert FollowedCall(g, st, cur, g.byCaller[cur][j]);
      }
    }
  }

  /** Following the calls of the function at the head of the queue, up to the target. */
  method Expand(g: Graph, src: nat, dst: nat, ghost maxDepth: nat, st0: State, cur: nat) returns (found: bool,
      st: State)
    requires g.Valid() && cur in st0.depthOf && cur < |g.byCaller| && st0.depthOf[cur] < maxDepth
    requires Inv(g, src, maxDepth, st0, {cur}, st0.depthOf[cur]) && dst !in st0.depthOf
    ensures found <==> dst in st.depthOf
    ensures Linked(g, src, st) && Shortest(g, src, st)
    ensures found ==> st.depthOf[dst] <= maxDepth
    ensures !found ==> Inv(g, src, maxDepth, st, {}, st0.depthOf[cur])
    ensures |st.depthOf| - |st.queue| == |st0.depthOf| - |st0.queue|
  {
    var d := st0.depthOf[cur];
    st := st0;
    var sites := g.byCaller[cur];
    for k := 0 to |sites|
      invariant cur in st.depthOf && st.depthOf[cur] == d
      invariant Inv(g, src, maxDepth, st, {cur}, d)
      invariant dst !in st.depthOf
      invariant FollowedUpTo(g, st, cur, k)
      invariant |st.depthOf| - |st.queue| == |st0.depthOf| - |st0.queue|
    {
      var ci := sites[k];
      var call := g.calls[ci];
      StepKeeps(g, src, maxDepth, st, cur, k);
      if call.resolution.Internal? {
        var callee := call.resolution.callee;
        if callee !in st.depthOf {
          st := Found(st, cur, ci, callee);
          if callee == dst {
            return true, st;
          }
        }
      }
    }
    found := false;
    AllFollowed(g, src, maxDepth, st, cur);
  }

  lemma AllFollowed(g: Graph, src: nat, maxDepth: nat, st: State, cur: nat)
    requires cur < |g.byCaller| && Explored(g, maxDepth, st, {cur})
    requires FollowedUpTo(g, st, cur, |g.byCaller[cur]|)
    ensures Explored(g, maxDepth, st, {})
  {
    forall u, ci, v | g.Edge(u, ci, v) && u in st.depthOf && u !in st.queue && st.depthOf[u] < maxDepth
      ensures Followed(st, u, v)
    {
      if u == cur {
        var j :| 0 <= j < |g.byCaller[cur]| && g.byCaller[cur][j] == ci;
        assert FollowedCall(g, st, cur, g.byCaller[cur][j]);
      }
    }
  }

  lemma PopKeeps(g: Graph, src: nat, maxDepth: nat, st: State, d: nat)
    requires Inv(g, src, maxDepth, st, {}, d) && st.queue != []
    ensures var cur := st.queue[0];
            && cur in st.depthOf
            && Inv(g, src, maxDepth, st.(queue := st.queue[1..]), {cur}, st.depthOf[cur])
            && (st.depthOf[cur] >= maxDepth ==> Inv(g, src, maxDepth, st.(queue := st.queue[1..]), {}, st.depthOf[cur]))
  {
    var cur, rest := st.queue[0], st.(queue := st.queue[1..]);
    forall n | n in rest.depthOf && n != src
      ensures LinkedAt(g, rest, n)
    {
      assert LinkedAt(g, st, n);
    }
    forall u, ci, v |
      g.Edge(u, ci, v) && u in rest.depthOf && u !in rest.queue && u != cur && rest.depthOf[u] < maxDepth
      ensures Followed(rest, u, v)
    {
      assert Followed(st, u, v);
    }
  }

  lemma FoundFit(g: Graph, src: nat, st: State)
    requires Linked(g, src, st)
    ensures |st.depthOf| <= |g.byCaller|
  {
    Interval(st.depthOf.Keys, |g.byCaller|);
    assert |st.depthOf| == |st.depthOf.Keys|;
  }

  /** The search: it ends since every function enters the queue once. */
  method Search(g: Graph, src: nat, dst: nat, maxDepth: nat) returns (found: bool, st: State)
    requires g.Valid() && src < |g.byCaller|
    ensures Linked(g, src, st) && Shortest(g, src, st)
    ensures found ==> dst in st.depthOf && st.depthOf[dst] <= maxDepth
    ensures !found ==> forall w :: g.Chain(src, w, dst) ==> |w| > maxDepth
  {
    st := State(map[src := 0], map[], [src]);
    found := src == dst;
    ghost var d := 0;
    while st.queue != [] && !found
      invariant Linked(g, src, st) && Shortest(g, src, st)
      invariant found ==> dst in st.depthOf && st.depthOf[dst] <= maxDepth
      invariant !found ==> dst !in st.depthOf && Inv(g, src, maxDepth, st, {}, d)
      decreases |g.byCaller| - |st.depthOf| + |st.queue|, !found
    {
      PopKeeps(g, src, maxDepth, st, d);
      var cur := st.queue[0];
      d := st.depthOf[cur];
      st := st.(queue := st.queue[1..]);
      FoundFit(g, src, st);
      if st.depthOf[cur] >= maxDepth {
        continue;
      }
      found, st := Expand(g, src, dst, maxDepth, st, cur);
      FoundFit(g, src, st);
    }
    if !found {
      NothingWithin(g, src, dst, maxDepth, st);
    }
  }

  lemma NothingWithin(g: Graph, src: nat, dst: nat, maxDepth: nat, st: State)
    requires Linked(g, src, st) && Shortest(g, src, st) && Explored(g, maxDepth, st, {})
    requires st.queue == [] && dst !in st.depthOf
    ensures forall w :: g.Chain(src, w, dst) ==> |w| > maxDepth
  {
    forall w | g.Chain(src, w, dst)
      ensures |w| > maxDepth
    {
      if |w| <= maxDepth {
        ShortChainIsFound(g, src, maxDepth, st, {}, maxDepth, w, dst);
      }
    }
  }

  /** Back along the pointers: each step lies one level higher, so the walk reaches the source. */
  method WalkBack(g: Graph, src: nat, dst: nat, st: State) returns (steps: seq<nat>)
    requires Linked(g, src, st) && dst in st.depthOf
    ensures g.Chain(src, steps, dst) && |steps| == st.depthOf[dst]
  {
    var back: seq<nat> := [];
    var cur := dst;
    assert Reversed(back) == [];
    while cur != src
      invariant cur in st.depthOf
      invariant g.Chain(cur, Reversed(back), dst) && |back| + st.depthOf[cur] == st.depthOf[dst]
      decreases st.depthOf[cur]
    {
      assert LinkedAt(g, st, cur);
      var (p, ci) := st.prev[cur];
      ChainPrepend(g, p, ci, cur, Reversed(back), dst);
      ReversedAppend(back, ci);
      back := back + [ci];
      cur := p;
    }
    ReversedLength(back);
    steps := Reversed(back);
  }

  /** A chain is found exactly when one of at most `maxDepth` calls exists; the one returned is made
      of real calls and no other is shorter. */
  method FindCallPath(g: Graph, src: nat, dst: nat, maxDepth: nat) returns (r: Option<seq<nat>>)
    requires g.Valid() && src < |g.byCaller|
    ensures r.Some? <==> exists w :: g.Chain(src, w, dst) && |w| <= maxDepth
    ensures r.Some? ==> g.Chain(src, r.value, dst) && |r.value| <= maxDepth
    ensures r.Some? ==> forall w :: g.Chain(src, w, dst) ==> |r.value| <= |w|
  {
    var found, st := Search(g, src, dst, maxDepth);
    if !found {
      return None;
    }
    var steps := WalkBack(g, src, dst, st);
    r := Some(steps);
  }
}
