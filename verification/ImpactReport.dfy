/** The two questions asked of the change-impact search. */
module ImpactReport {
  import opened Common
  import opened Sorting
  import opened ImpactGraph
  import opened ImpactSearch
  import opened ImpactWalks
  import opened ImpactClosure
  import opened ImpactCap
  import opened ImpactLevels
  import opened ImpactLimit

  // ---- The report ----

  /** The guarantees of a report, in terms of the edges of the graph. */
  ghost predicate Honest(rev: Adjacency, seeds: seq<nat>, maxDepth: nat, impacted: map<nat, Impacted>) {
    forall n :: n in impacted ==>
      && n !in seeds
      && 1 <= impacted[n].depth <= maxDepth
      && impacted[n].depth <= |impacted|
      && exists s, w :: Explains(rev, seeds, impacted, n, s, w)
  }

  ghost predicate Exact(rev: Adjacency, seeds: seq<nat>, impacted: map<nat, Impacted>) {
    forall n: nat ::
      && (n in impacted <==> n !in seeds && Reachable(rev, seeds, n))
      && (n in impacted ==> (impacted[n].confidence == High <==> HighReachable(rev, seeds, n)))
  }

  ghost predicate DistanceExact(rev: Adjacency, seeds: seq<nat>, maxDepth: nat, impacted: map<nat, Impacted>) {
    forall n: nat ::
      && (n in impacted <==> exists k: nat :: 1 <= k <= maxDepth && Distance(rev, seeds, n, k))
      && (n in impacted ==> Distance(rev, seeds, n, impacted[n].depth))
  }

  lemma ReportIsHonest(rev: Adjacency, seeds: seq<nat>, maxDepth: nat)
    ensures Honest(rev, seeds, maxDepth, Result(rev, seeds, maxDepth).impacted)
  {
    forall n | n in Result(rev, seeds, maxDepth).impacted
      ensures var impacted := Result(rev, seeds, maxDepth).impacted;
              && 1 <= impacted[n].depth <= maxDepth && impacted[n].depth <= |impacted|
              && exists s, w :: Explains(rev, seeds, impacted, n, s, w)
    {
      DepthWitness(rev, seeds, maxDepth, n);
    }
  }

  lemma ReportIsExact(rev: Adjacency, seeds: seq<nat>, maxDepth: nat)
    requires !Result(rev, seeds, maxDepth).truncated && |Result(rev, seeds, maxDepth).impacted| < maxDepth
    ensures Exact(rev, seeds, Result(rev, seeds, maxDepth).impacted)
  {
    forall n: nat {
      ExactClosure(rev, seeds, maxDepth, n);
    }
  }

  lemma ReportIsDistanceExact(rev: Adjacency, seeds: seq<nat>, maxDepth: nat, c: Confidence)
    requires Uniform(rev, c) && !Result(rev, seeds, maxDepth).truncated
    ensures DistanceExact(rev, seeds, maxDepth, Result(rev, seeds, maxDepth).impacted)
  {
    forall n: nat {
      UniformDistances(rev, seeds, maxDepth, c, n);
    }
  }

  /** Edges only lead to functions of the graph, so their number bounds the report. */
  lemma ReportWithinGraph(rev: Adjacency, seeds: seq<nat>, maxDepth: nat, size: nat)
    requires forall n, e :: e in Out(rev, n) ==> e.to < size
    ensures |Result(rev, seeds, maxDepth).impacted| <= size
    ensures size < NODE_CAP ==> !Result(rev, seeds, maxDepth).truncated
  {
    var r := Result(rev, seeds, maxDepth);
    forall n | n in r.impacted
      ensures n < size
    {
      DepthWitness(rev, seeds, maxDepth, n);
      var s, w :| Explains(rev, seeds, r.impacted, n, s, w);
    }
    Interval(r.impacted.Keys, size);
    NodeCap(rev, seeds, maxDepth);
    ElementsCount(seeds);
  }

  /** Everything a caller may rely on. */
  ghost predicate Report(rev: Adjacency, seeds: seq<nat>, maxDepth: nat, impacted: map<nat, Impacted>,
      truncated: bool) {
    && Honest(rev, seeds, maxDepth, impacted)
    && (!truncated && |impacted| < maxDepth ==> Exact(rev, seeds, impacted))
    && (Complete(rev, seeds, maxDepth, impacted) && Distances(rev, seeds, impacted) <==>
          NoHighDetour(rev, seeds, maxDepth) && Fits(rev, seeds, maxDepth))
    && (!truncated && Uniform(rev, High) ==> DistanceExact(rev, seeds, maxDepth, impacted))
    && (!truncated && Uniform(rev, Heuristic) ==> DistanceExact(rev, seeds, maxDepth, impacted))
    && |impacted| <= Capacity(seeds)
  }

  lemma ResultReports(rev: Adjacency, seeds: seq<nat>, maxDepth: nat)
    ensures var r := Result(rev, seeds, maxDepth); Report(rev, seeds, maxDepth, r.impacted, r.truncated)
  {
    var r := Result(rev, seeds, maxDepth);
    NodeCap(rev, seeds, maxDepth);
    DepthPromise(rev, seeds, maxDepth);
    ReportIsHonest(rev, seeds, maxDepth);
    if !r.truncated {
      if |r.impacted| < maxDepth { ReportIsExact(rev, seeds, maxDepth); }
      if Uniform(rev, High) { ReportIsDistanceExact(rev, seeds, maxDepth, High); }
      if Uniform(rev, Heuristic) { ReportIsDistanceExact(rev, seeds, maxDepth, Heuristic); }
    }
  }

  lemma AdjacentWithinGraph(g: Graph)
    requires g.Valid()
    ensures forall n, e :: e in Out(Adjacent(g), n) ==> e.to < |g.fileOf|
  {
    forall n, e | e in Out(Adjacent(g), n)
      ensures e.to < |g.fileOf|
    {
      AdjacentMeaning(g, n, e);
      PullsWithinGraph(g, n, e);
    }
  }

  /** The blast radius of a change to `seeds`. In a graph of fewer than 5000 functions nothing is
      refused, and with a depth limit above the number of functions the report is exact. */
  method BlastRadius(g: Graph, seeds: seq<nat>, maxDepth: nat) returns (impacted: map<nat, Impacted>, truncated: bool)
    requires g.Valid()
    ensures impacted == Result(Adjacent(g), seeds, maxDepth).impacted
    ensures truncated == Result(Adjacent(g), seeds, maxDepth).truncated
    ensures Report(Adjacent(g), seeds, maxDepth, impacted, truncated)
    ensures |impacted| <= |g.fileOf|
    ensures |g.fileOf| < 5000 ==> !truncated
    ensures |g.fileOf| < 5000 && |g.fileOf| < maxDepth ==> Exact(Adjacent(g), seeds, impacted)
  {
    var rev := ReverseAdjacency(g);
    impacted, truncated := SearchFrom(rev, seeds, maxDepth);
    ResultReports(rev, seeds, maxDepth);
    AdjacentWithinGraph(g);
    ReportWithinGraph(rev, seeds, maxDepth, |g.fileOf|);
  }

  // ---- Which tests to run again ----

  datatype TestRow = TestRow(id: nat, depth: nat, confidence: Confidence)

  /** Depth first, then id. */
  predicate RowLeq(a: TestRow, b: TestRow) {
    a.depth < b.depth || (a.depth == b.depth && a.id <= b.id)
  }

  function SeedRows(isTest: set<nat>, seeds: seq<nat>): seq<TestRow> {
    if seeds == [] then []
    else
      var front := SeedRows(isTest, seeds[..|seeds| - 1]);
      var s := seeds[|seeds| - 1];
      if s in isTest then front + [TestRow(s, 0, High)] else front
  }

  function ImpactRows(isTest: set<nat>, impacted: map<nat, Impacted>, order: seq<nat>): seq<TestRow>
    requires forall n :: n in order ==> n in impacted
  {
    if order == [] then []
    else
      var front := ImpactRows(isTest, impacted, order[..|order| - 1]);
      var n := order[|order| - 1];
      if n in isTest then front + [TestRow(n, impacted[n].depth, impacted[n].confidence)] else front
  }

  /** `order` lists every reported function once, in whatever order the hash map yields them. */
  ghost predicate Enumerates(order: seq<nat>, impacted: map<nat, Impacted>) {
    Distinct(order) && Elements(order) == impacted.Keys
  }

  lemma {:induction false} SeedRowsAre(isTest: set<nat>, seeds: seq<nat>, row: TestRow)
    ensures row in SeedRows(isTest, seeds) <==> row.id in seeds && row.id in isTest && row == TestRow(row.id, 0, High)
  {
    if seeds != [] {
      var k := |seeds| - 1;
      SeedRowsAre(isTest, seeds[..k], row);
      assert seeds == seeds[..k] + [seeds[k]];
    }
  }

  lemma {:induction false} ImpactRowsAre(isTest: set<nat>, impacted: map<nat, Impacted>, order: seq<nat>,
      row: TestRow)
    requires forall n :: n in order ==> n in impacted
    ensures row in ImpactRows(isTest, impacted, order) <==>
            row.id in order && row.id in isTest
            && row == TestRow(row.id, impacted[row.id].depth, impacted[row.id].confidence)
  {
    if order != [] {
      var k := |order| - 1;
      ImpactRowsAre(isTest, impacted, order[..k], row);
      assert order == order[..k] + [order[k]];
    }
  }

  lemma {:induction false} ImpactRowsOnce(isTest: set<nat>, impacted: map<nat, Impacted>, order: seq<nat>)
    requires Distinct(order) && forall n :: n in order ==> n in impacted
    ensures Distinct(ImpactRows(isTest, impacted, order))
  {
    if order != [] {
      var k := |order| - 1;
      ImpactRowsOnce(isTest, impacted, order[..k]);
      ImpactRowsAre(isTest, impacted, order[..k],
                    TestRow(order[k], impacted[order[k]].depth, impacted[order[k]].confidence));
      assert order[k] !in order[..k];
    }
  }

  lemma {:induction false} DistinctMultiset<T>(s: seq<T>)
    requires Distinct(s)
    ensures multiset(s) == multiset(Elements(s))
  {
    if s != [] {
      var k := |s| - 1;
      DistinctMultiset(s[..k]);
      assert s == s[..k] + [s[k]];
      assert Elements(s) == Elements(s[..k]) + {s[k]};
      assert s[k] !in s[..k];
    }
  }

  lemma {:induction false} SeedRowsCount(isTest: set<nat>, seeds: seq<nat>, row: TestRow)
    ensures multiset(SeedRows(isTest, seeds))[row] ==
            if row.id in isTest && row == TestRow(row.id, 0, High) then multiset(seeds)[row.id] else 0
  {
    if seeds != [] {
      var k := |seeds| - 1;
      SeedRowsCount(isTest, seeds[..k], row);
      assert seeds == seeds[..k] + [seeds[k]];
    }
  }

  /** How often a row is listed: once for each listing of its function as a seed, and once if reported. */
  ghost predicate ListedOften(isTest: set<nat>, seeds: seq<nat>, impacted: map<nat, Impacted>, row: TestRow, n: nat) {
    n == (if row.id in isTest && row.depth == 0 && row.confidence == High then multiset(seeds)[row.id] else 0)
         + (if row.id in isTest && row.id in impacted && row.depth == impacted[row.id].depth
               && row.confidence == impacted[row.id].confidence then 1 else 0)
  }

  lemma RowsCount(isTest: set<nat>, seeds: seq<nat>, impacted: map<nat, Impacted>, order: seq<nat>, row: TestRow)
    requires Enumerates(order, impacted) && forall n :: n in order ==> n in impacted
    ensures ListedOften(isTest, seeds, impacted, row,
                        multiset(SeedRows(isTest, seeds) + ImpactRows(isTest, impacted, order))[row])
  {
    var rows := ImpactRows(isTest, impacted, order);
    SeedRowsCount(isTest, seeds, row);
    ImpactRowsAre(isTest, impacted, order, row);
    ImpactRowsOnce(isTest, impacted, order);
    DistinctOnce(rows, row);
    assert row in rows <==> multiset(rows)[row] > 0;
    assert row.id in order <==> row.id in Elements(order);
  }

  lemma ImpactRowsAgree(isTest: set<nat>, impacted: map<nat, Impacted>, o1: seq<nat>, o2: seq<nat>)
    requires Enumerates(o1, impacted) && Enumerates(o2, impacted)
    requires forall n :: n in o1 || n in o2 ==> n in impacted
    ensures multiset(ImpactRows(isTest, impacted, o1)) == multiset(ImpactRows(isTest, impacted, o2))
  {
    var r1, r2 := ImpactRows(isTest, impacted, o1), ImpactRows(isTest, impacted, o2);
    forall row
      ensures row in r1 <==> row in r2
    {
      ImpactRowsAre(isTest, impacted, o1, row);
      ImpactRowsAre(isTest, impacted, o2, row);
      assert row.id in o1 <==> row.id in Elements(o1);
      assert row.id in o2 <==> row.id in Elements(o2);
    }
    ImpactRowsOnce(isTest, impacted, o1);
    ImpactRowsOnce(isTest, impacted, o2);
    DistinctMultiset(r1);
    DistinctMultiset(r2);
    assert Elements(r1) == Elements(r2);
  }

  lemma RowsSeparate(isTest: set<nat>, seeds: seq<nat>, impacted: map<nat, Impacted>, order: seq<nat>)
    requires forall n :: n in order ==> n in impacted
    requires forall n :: n in impacted ==> impacted[n].depth >= 1
    ensures Separates(RowLeq, SeedRows(isTest, seeds) + ImpactRows(isTest, impacted, order))
  {
    forall row
      ensures row in SeedRows(isTest, seeds) ==> row == TestRow(row.id, 0, High)
      ensures row in ImpactRows(isTest, impacted, order) ==>
              row.id in impacted && row == TestRow(row.id, impacted[row.id].depth, impacted[row.id].confidence)
    {
      SeedRowsAre(isTest, seeds, row);
      ImpactRowsAre(isTest, impacted, order, row);
    }
  }

  /** The sorted test list is the same whatever order the reported functions come in. */
  lemma TestOrderDoesNotMatter(isTest: set<nat>, seeds: seq<nat>, impacted: map<nat, Impacted>, o1: seq<nat>,
      o2: seq<nat>)
    requires Enumerates(o1, impacted) && Enumerates(o2, impacted)
    requires forall n :: n in o1 || n in o2 ==> n in impacted
    requires forall n :: n in impacted ==> impacted[n].depth >= 1
    ensures Sort(RowLeq, SeedRows(isTest, seeds) + ImpactRows(isTest, impacted, o1))
         == Sort(RowLeq, SeedRows(isTest, seeds) + ImpactRows(isTest, impacted, o2))
  {
    ImpactRowsAgree(isTest, impacted, o1, o2);
    RowsSeparate(isTest, seeds, impacted, o1);
    SortPermutation(RowLeq, SeedRows(isTest, seeds) + ImpactRows(isTest, impacted, o1),
                    SeedRows(isTest, seeds) + ImpactRows(isTest, impacted, o2));
  }

  /** The tests among the seeds (at depth 0) and the reported functions, by depth and then id. */
  method AffectedTests(isTest: set<nat>, seeds: seq<nat>, impacted: map<nat, Impacted>, order: seq<nat>)
    returns (rows: seq<TestRow>)
    requires Enumerates(order, impacted)
    ensures forall i, j :: 0 <= i < j < |rows| ==>
              rows[i].depth < rows[j].depth || (rows[i].depth == rows[j].depth && rows[i].id <= rows[j].id)
    ensures forall row :: ListedOften(isTest, seeds, impacted, row, multiset(rows)[row])
    ensures rows == Sort(RowLeq, SeedRows(isTest, seeds) + ImpactRows(isTest, impacted, order))
  {
    assert forall n :: n in order ==> n in Elements(order);
    rows := [];
    for i := 0 to |seeds|
      invariant rows == SeedRows(isTest, seeds[..i])
    {
      assert seeds[..i+1][..i] == seeds[..i];
      if seeds[i] in isTest {
        rows := rows + [TestRow(seeds[i], 0, High)];
      }
    }
    assert seeds[..|seeds|] == seeds;
    for i := 0 to |order|
      invariant rows == SeedRows(isTest, seeds) + ImpactRows(isTest, impacted, order[..i])
    {
      assert order[..i+1][..i] == order[..i];
      var n := order[i];
      if n in isTest {
        rows := rows + [TestRow(n, impacted[n].depth, impacted[n].confidence)];
      }
    }
    assert order[..|order|] == order;
    SortIsSorted(RowLeq, rows);
    rows := Sort(RowLeq, rows);
    InOrder(rows);
    forall row {
      RowsCount(isTest, seeds, impacted, order, row);
    }
  }

  lemma InOrder(rows: seq<TestRow>)
    requires Sorted(RowLeq, rows)
    ensures forall i, j :: 0 <= i < j < |rows| ==>
              rows[i].depth < rows[j].depth || (rows[i].depth == rows[j].depth && rows[i].id <= rows[j].id)
  {
    forall i, j | 0 <= i < j < |rows|
      ensures rows[i].depth < rows[j].depth || (rows[i].depth == rows[j].depth && rows[i].id <= rows[j].id)
    {
      assert RowLeq(rows[i], rows[j]);
    }
  }
}
