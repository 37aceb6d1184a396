/** The change-impact search: breadth-first, with upgrades, and why it ends. */
module ImpactSearch {
  import opened Common
  import opened ImpactGraph

  const NODE_CAP: nat := 5000

  datatype Mark = Mark(depth: nat, confidence: Confidence)
  datatype Impacted = Impacted(depth: nat, confidence: Confidence, via: Via, site: Site)

  /** The variables of the loop. `marks` also holds the seeds; `impacted` does not. */
  datatype State = State(marks: map<nat, Mark>, impacted: map<nat, Impacted>, queue: seq<nat>, truncated: bool)

  function Limit(seeds: seq<nat>): nat {
    NODE_CAP + |seeds|
  }

  function Start(seeds: seq<nat>): State {
    State(map s | s in seeds :: Mark(0, High), map[], seeds, false)
  }

  function Record(st: State, e: Edge, mark: Mark): State {
    State(st.marks[e.to := mark],
          st.impacted[e.to := Impacted(mark.depth, mark.confidence, e.via, e.site)],
          st.queue + [e.to],
          st.truncated)
  }

  /** One edge out of a function marked `from`. */
  function Relax(st: State, seeds: seq<nat>, from: Mark, e: Edge): State {
    if e.to in seeds then st
    else
      var next := Mark(from.depth + 1, Worse(from.confidence, e.confidence));
      if e.to !in st.marks then
        if |st.marks| >= Limit(seeds) then st.(truncated := true) else Record(st, e, next)
      else if st.marks[e.to].confidence == Heuristic && next.confidence == High then Record(st, e, next)
      else st
  }

  function RelaxAll(st: State, seeds: seq<nat>, from: Mark, edges: seq<Edge>): State
    decreases |edges|
  {
    if edges == [] then st
    else
      var n := |edges| - 1;
      Relax(RelaxAll(st, seeds, from, edges[..n]), seeds, from, edges[n])
  }

  /** One turn of the loop: the head of the queue, with the mark it has now. */
  function Pop(st: State, rev: Adjacency, seeds: seq<nat>, maxDepth: nat): State
    requires st.queue != [] && st.queue[0] in st.marks
  {
    var from := st.marks[st.queue[0]];
    var rest := st.(queue := st.queue[1..]);
    if from.depth >= maxDepth then rest else RelaxAll(rest, seeds, from, Out(rev, st.queue[0]))
  }

  // ---- Why the loop ends ----

  ghost predicate Sound(st: State, seeds: seq<nat>) {
    && (forall n :: n in st.queue ==> n in st.marks)
    && (forall s :: s in seeds ==> s in st.marks && st.marks[s] == Mark(0, High))
    && (forall n :: n in st.marks ==> n in seeds || n in st.impacted)
    && (forall n :: n in st.impacted ==> n in st.marks && n !in seeds)
    && |st.marks| <= Limit(seeds)
    && (st.truncated ==> |st.marks| == Limit(seeds))
    && (forall n :: n in st.impacted ==>
          st.impacted[n].depth == st.marks[n].depth && st.impacted[n].confidence == st.marks[n].confidence)
  }

  ghost function Doubtful(marks: map<nat, Mark>): set<nat> {
    set n | n in marks && marks[n].confidence == Heuristic
  }

  /** How often a function can still be queued: twice when unseen, once when Heuristic. */
  ghost function Budget(st: State, seeds: seq<nat>): int {
    2 * (Limit(seeds) - |st.marks|) + |Doubtful(st.marks)|
  }

  lemma DoubtfulAfter(marks: map<nat, Mark>, n: nat, mark: Mark)
    ensures |Doubtful(marks[n := mark])| ==
            |Doubtful(marks)| - (if n in Doubtful(marks) then 1 else 0)
            + (if mark.confidence == Heuristic then 1 else 0)
  {
    var before, after := Doubtful(marks), Doubtful(marks[n := mark]);
    if mark.confidence == Heuristic {
      assert after == before + {n};
    } else {
      assert after == before - {n};
    }
  }

  lemma DiscoverSpends(st: State, seeds: seq<nat>, e: Edge, mark: Mark)
    requires Sound(st, seeds)
    requires e.to !in st.marks && |st.marks| < Limit(seeds)
    ensures Sound(Record(st, e, mark), seeds)
    ensures Budget(Record(st, e, mark), seeds) < Budget(st, seeds)
  {
    UpdateCount(st.marks, e.to, mark);
    DoubtfulAfter(st.marks, e.to, mark);
  }

  lemma UpgradeSpends(st: State, seeds: seq<nat>, e: Edge, mark: Mark)
    requires Sound(st, seeds)
    requires e.to in st.marks && st.marks[e.to].confidence == Heuristic && mark.confidence == High
    ensures Sound(Record(st, e, mark), seeds)
    ensures Budget(Record(st, e, mark), seeds) < Budget(st, seeds)
  {
    UpdateCount(st.marks, e.to, mark);
    DoubtfulAfter(st.marks, e.to, mark);
  }

  /** One edge either changes no mark, or queues one function and uses up budget. */
  ghost predicate Spends(st: State, r: State, seeds: seq<nat>) {
    && Sound(r, seeds)
    && Budget(r, seeds) + |r.queue| <= Budget(st, seeds) + |st.queue|
  }

  lemma RelaxSpends(st: State, seeds: seq<nat>, from: Mark, e: Edge)
    requires Sound(st, seeds)
    ensures Spends(st, Relax(st, seeds, from, e), seeds)
  {
    var next := Mark(from.depth + 1, Worse(from.confidence, e.confidence));
    var r := Relax(st, seeds, from, e);
    if r == Record(st, e, next) {
      if e.to !in st.marks {
        if |st.marks| < Limit(seeds) {
          DiscoverSpends(st, seeds, e, next);
        }
      } else if e.to !in seeds && st.marks[e.to].confidence == Heuristic && next.confidence == High {
        UpgradeSpends(st, seeds, e, next);
      }
    } else {
      assert r.marks == st.marks;
    }
  }

  lemma {:induction false} RelaxAllSpends(st: State, seeds: seq<nat>, from: Mark, edges: seq<Edge>)
    requires Sound(st, seeds)
    ensures Spends(st, RelaxAll(st, seeds, from, edges), seeds)
    decreases |edges|
  {
    if edges != [] {
      var n := |edges| - 1;
      RelaxAllSpends(st, seeds, from, edges[..n]);
      RelaxSpends(RelaxAll(st, seeds, from, edges[..n]), seeds, from, edges[n]);
    }
  }

  lemma PopSpends(st: State, rev: Adjacency, seeds: seq<nat>, maxDepth: nat)
    requires Sound(st, seeds) && st.queue != []
    ensures var r := Pop(st, rev, seeds, maxDepth);
            && Sound(r, seeds)
            && Budget(r, seeds) + |r.queue| < Budget(st, seeds) + |st.queue|
  {
    var rest := st.(queue := st.queue[1..]);
    assert Doubtful(rest.marks) == Doubtful(st.marks);
    RelaxAllSpends(rest, seeds, st.marks[st.queue[0]], Out(rev, st.queue[0]));
  }

  lemma StartIsSound(seeds: seq<nat>)
    ensures Sound(Start(seeds), seeds)
    ensures Budget(Start(seeds), seeds) + |Start(seeds).queue| == 2 * NODE_CAP + 3 * |seeds| - 2 * |Elements(seeds)|
  {
    var st := Start(seeds);
    assert st.marks.Keys == Elements(seeds);
    ElementsCount(seeds);
    assert |st.marks| == |st.marks.Keys|;
    assert Doubtful(st.marks) == {};
  }

  /** The loop, run to the end from `st`. */
  ghost function Run(st: State, rev: Adjacency, seeds: seq<nat>, maxDepth: nat): (r: State)
    requires Sound(st, seeds)
    ensures Sound(r, seeds) && r.queue == []
    decreases Budget(st, seeds) + |st.queue|
  {
    if st.queue == [] then st
    else
      PopSpends(st, rev, seeds, maxDepth);
      Run(Pop(st, rev, seeds, maxDepth), rev, seeds, maxDepth)
  }

  /** How many functions the loop takes off its queue. */
  ghost function Turns(st: State, rev: Adjacency, seeds: seq<nat>, maxDepth: nat): nat
    requires Sound(st, seeds)
    decreases Budget(st, seeds) + |st.queue|
  {
    if st.queue == [] then 0
    else
      PopSpends(st, rev, seeds, maxDepth);
      1 + Turns(Pop(st, rev, seeds, maxDepth), rev, seeds, maxDepth)
  }

  lemma {:induction false} TurnsWithinBudget(st: State, rev: Adjacency, seeds: seq<nat>, maxDepth: nat)
    requires Sound(st, seeds)
    ensures Turns(st, rev, seeds, maxDepth) <= Budget(st, seeds) + |st.queue|
    decreases Budget(st, seeds) + |st.queue|
  {
    if st.queue != [] {
      PopSpends(st, rev, seeds, maxDepth);
      TurnsWithinBudget(Pop(st, rev, seeds, maxDepth), rev, seeds, maxDepth);
    } else {
      assert Budget(st, seeds) >= 0;
    }
  }

  ghost function AllTurns(rev: Adjacency, seeds: seq<nat>, maxDepth: nat): nat {
    StartIsSound(seeds);
    Turns(Start(seeds), rev, seeds, maxDepth)
  }

  /** Distinct seeds leave at most |seeds| + 2 * 5000 turns, two for each function reported. */
  lemma SearchTerminates(rev: Adjacency, seeds: seq<nat>, maxDepth: nat)
    ensures AllTurns(rev, seeds, maxDepth) <= 10000 + 3 * |seeds| - 2 * |Elements(seeds)|
    ensures Distinct(seeds) ==> AllTurns(rev, seeds, maxDepth) <= |seeds| + 10000
  {
    StartIsSound(seeds);
    TurnsWithinBudget(Start(seeds), rev, seeds, maxDepth);
    if Distinct(seeds) {
      DistinctCount(seeds);
    }
  }

  ghost function Result(rev: Adjacency, seeds: seq<nat>, maxDepth: nat): (r: State)
    ensures Sound(r, seeds) && r.queue == []
  {
    StartIsSound(seeds);
    Run(Start(seeds), rev, seeds, maxDepth)
  }

  method Seed(seeds: seq<nat>) returns (marks: map<nat, Mark>, queue: seq<nat>)
    ensures State(marks, map[], queue, false) == Start(seeds)
  {
    marks, queue := map[], [];
    for i := 0 to |seeds|
      invariant State(marks, map[], queue, false) == Start(seeds[..i])
    {
      marks := marks[seeds[i] := Mark(0, High)];
      queue := queue + [seeds[i]];
    }
    assert seeds[..|seeds|] == seeds;
  }

  /** The inner loop: every edge out of the function just taken off the queue. */
  method Scan(st: State, seeds: seq<nat>, from: Mark, edges: seq<Edge>) returns (r: State)
    ensures r == RelaxAll(st, seeds, from, edges)
  {
    var marks: map<nat, Mark>, impacted: map<nat, Impacted> := st.marks, st.impacted;
    var queue, truncated := st.queue, st.truncated;
    for i := 0 to |edges|
      invariant State(marks, impacted, queue, truncated) == RelaxAll(st, seeds, from, edges[..i])
    {
      var e := edges[i];
      assert edges[..i+1][..i] == edges[..i];
      if e.to in seeds {
        continue;
      }
      var confidence := Worse(from.confidence, e.confidence);
      var update := if e.to !in marks then |marks| < NODE_CAP + |seeds|
                    else marks[e.to].confidence == Heuristic && confidence == High;
      if |marks| >= NODE_CAP + |seeds| && e.to !in marks {
        truncated := true;
        continue;
      }
      if update {
        marks := marks[e.to := Mark(from.depth + 1, confidence)];
        impacted := impacted[e.to := Impacted(from.depth + 1, confidence, e.via, e.site)];
        queue := queue + [e.to];
      }
    }
    assert edges[..|edges|] == edges;
    r := State(marks, impacted, queue, truncated);
  }

  method SearchFrom(rev: Adjacency, seeds: seq<nat>, maxDepth: nat)
    returns (impacted: map<nat, Impacted>, truncated: bool)
    ensures impacted == Result(rev, seeds, maxDepth).impacted
    ensures truncated == Result(rev, seeds, maxDepth).truncated
  {
    var marks, queue := Seed(seeds);
    var st := State(marks, map[], queue, false);
    StartIsSound(seeds);
    while st.queue != []
      invariant Sound(st, seeds)
      invariant Run(st, rev, seeds, maxDepth) == Result(rev, seeds, maxDepth)
      decreases Budget(st, seeds) + |st.queue|
    {
      PopSpends(st, rev, seeds, maxDepth);
      var cur := st.queue[0];
      var from := st.marks[cur];
      st := st.(queue := st.queue[1..]);
      if from.depth >= maxDepth || cur !in rev {
        continue;
      }
      st := Scan(st, seeds, from, rev[cur]);
    }
    impacted, truncated := st.impacted, st.truncated;
  }
}
