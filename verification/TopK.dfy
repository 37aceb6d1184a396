/** The best `k` rows: cut behind the k-th, sort what is left. */
module TopK {
  import opened Common
  import opened Sorting

  /** Scores are taken from a total order. */
  datatype Scored = Scored(id: nat, score: real)

  /** Higher score first, then lower id. */
  predicate Before(a: Scored, b: Scored) {
    a.score > b.score || (a.score == b.score && a.id <= b.id)
  }

  /** The rows in the running: positive score, not excluded. */
  function Candidates(scores: seq<real>, exclude: Option<nat>): seq<Scored> {
    if scores == [] then []
    else
      var n := |scores| - 1;
      Candidates(scores[..n], exclude)
      + (if exclude != Some(n) && scores[n] > 0.0 then [Scored(n, scores[n])] else [])
  }

  /** The first `k` of the fully sorted candidates. */
  function Best(scores: seq<real>, k: nat, exclude: Option<nat>): seq<Scored> {
    var all := Sort(Before, Candidates(scores, exclude));
    all[..if k <= |all| then k else |all|]
  }

  /** `p` has the same elements as `s`; nothing before place `n` comes after `p[n]`, and nothing
      behind it comes before. */
  ghost predicate Partitioned(s: seq<Scored>, p: seq<Scored>, n: nat) {
    && multiset(p) == multiset(s) && n < |p|
    && (forall i :: 0 <= i < n ==> Before(p[i], p[n]))
    && (forall i :: n < i < |p| ==> Before(p[n], p[i]))
  }

  /** The library's selection; only `Partitioned` is promised. */
  method SelectNth(s: seq<Scored>, n: nat) returns (p: seq<Scored>)
    requires n < |s|
    ensures Partitioned(s, p, n)
  {
    SortIsSorted(Before, s);
    p := Sort(Before, s);
  }

  /** What the selection put in front comes before everything behind. */
  lemma CutSeparates(p: seq<Scored>, s: seq<Scored>, k: nat, x: Scored, y: Scored)
    requires 0 < k <= |p| && Partitioned(s, p, k - 1) && x in p[..k] && y in p[k..]
    ensures Before(x, y)
  {
    var i :| 0 <= i < k && p[i] == x;
    var j :| k <= j < |p| && p[j] == y;
    assert i < k - 1 ==> Before(p[i], p[k - 1]);
    assert Before(p[k - 1], p[j]);
  }

  lemma SameElements(a: seq<Scored>, b: seq<Scored>, x: Scored)
    requires multiset(a) == multiset(b)
    ensures x in a <==> x in b
  {
    assert x in a <==> x in multiset(a);
  }

  lemma CutIsSorted(s: seq<Scored>, p: seq<Scored>, k: nat)
    requires 0 < k <= |p| && Partitioned(s, p, k - 1)
    ensures Sorted(Before, Sort(Before, p[..k]) + Sort(Before, p[k..]))
  {
    var front, back := p[..k], p[k..];
    SortIsSorted(Before, front);
    SortIsSorted(Before, back);
    forall x, y | x in Sort(Before, front) && y in Sort(Before, back)
      ensures Before(x, y)
    {
      SameElements(Sort(Before, front), front, x);
      SameElements(Sort(Before, back), back, y);
      CutSeparates(p, s, k, x, y);
    }
  }

  lemma CutKeepsElements(p: seq<Scored>, k: nat)
    requires k <= |p|
    ensures |Sort(Before, p[..k])| == k
    ensures multiset(Sort(Before, p[..k]) + Sort(Before, p[k..])) == multiset(p)
  {
    SortIsSorted(Before, p[..k]);
    SortIsSorted(Before, p[k..]);
    assert p == p[..k] + p[k..];
  }

  /** Whatever order the selection left, cutting and sorting gives the front of the full sort. */
  lemma CutThenSort(s: seq<Scored>, p: seq<Scored>, k: nat)
    requires 0 < k <= |p| && Partitioned(s, p, k - 1)
    ensures |Sort(Before, s)| == |s| == |p|
    ensures Sort(Before, p[..k]) == Sort(Before, s)[..k]
  {
    var cut := Sort(Before, p[..k]) + Sort(Before, p[k..]);
    CutIsSorted(s, p, k);
    CutKeepsElements(p, k);
    SortIsSorted(Before, s);
    assert |multiset(p)| == |multiset(s)|;
    assert Separates(Before, cut);
    SortedUnique(Before, cut, Sort(Before, s));
    assert cut[..k] == Sort(Before, p[..k]);
  }

  /** A longer answer starts with the shorter one. */
  lemma BestIsPrefix(scores: seq<real>, k: nat, exclude: Option<nat>)
    ensures Best(scores, k, exclude) <= Best(scores, k + 1, exclude)
  {
  }

  lemma {:induction false} CandidatesAre(scores: seq<real>, exclude: Option<nat>, c: Scored)
    ensures c in Candidates(scores, exclude) <==>
              c.id < |scores| && exclude != Some(c.id) && c.score == scores[c.id] && c.score > 0.0
  {
    if scores != [] { CandidatesAre(scores[..|scores| - 1], exclude, c); }
  }

  // ---- What the answer holds ----

  /** May row `n` be in the answer? */
  ghost predicate Runs(scores: seq<real>, exclude: Option<nat>, n: nat) {
    n < |scores| && scores[n] > 0.0 && exclude != Some(n)
  }

  /** Rows of their own score, highest score first, equal scores by id; a row left out has a lower
      score than every row kept, or the same and a higher id, and is left out for want of room. */
  ghost predicate IsTop(scores: seq<real>, k: nat, exclude: Option<nat>, top: seq<Scored>) {
    && |top| <= k
    && (forall c :: c in top ==> Runs(scores, exclude, c.id) && c.score == scores[c.id])
    && (forall i, j :: 0 <= i < j < |top| ==>
          top[i].score > top[j].score || (top[i].score == top[j].score && top[i].id < top[j].id))
    && (forall n: nat :: Runs(scores, exclude, n) && Scored(n, scores[n]) !in top ==>
          |top| == k && forall b :: b in top ==> b.score > scores[n] || (b.score == scores[n] && b.id < n))
  }

  /** No row is a candidate twice. */
  lemma {:induction false} CandidatesOnce(scores: seq<real>, exclude: Option<nat>)
    ensures Distinct(Candidates(scores, exclude))
  {
    if scores != [] {
      var n := |scores| - 1;
      CandidatesOnce(scores[..n], exclude);
      CandidatesAre(scores[..n], exclude, Scored(n, scores[n]));
    }
  }

  /** A sorted list of all the rows in the running, each once. */
  ghost predicate RanksAll(scores: seq<real>, exclude: Option<nat>, all: seq<Scored>) {
    && Sorted(Before, all) && Distinct(all)
    && forall c :: c in all <==> Runs(scores, exclude, c.id) && c.score == scores[c.id]
  }

  lemma SortRanksAll(scores: seq<real>, exclude: Option<nat>)
    ensures RanksAll(scores, exclude, Sort(Before, Candidates(scores, exclude)))
  {
    var s := Candidates(scores, exclude);
    var all := Sort(Before, s);
    SortIsSorted(Before, s);
    CandidatesOnce(scores, exclude);
    SameDistinct(all, s);
    forall c
      ensures c in all <==> Runs(scores, exclude, c.id) && c.score == scores[c.id]
    {
      SameElements(all, s, c);
      CandidatesAre(scores, exclude, c);
    }
  }

  lemma FrontIsTop(scores: seq<real>, k: nat, exclude: Option<nat>, all: seq<Scored>, n: nat)
    requires RanksAll(scores, exclude, all) && n == if k <= |all| then k else |all|
    ensures IsTop(scores, k, exclude, all[..n])
  {
    FrontOrdered(all, n);
    forall m: nat | Runs(scores, exclude, m) && Scored(m, scores[m]) !in all[..n]
      ensures n == k && forall b :: b in all[..n] ==> b.score > scores[m] || (b.score == scores[m] && b.id < m)
    {
      FrontOfSorted(all, n, Scored(m, scores[m]));
    }
  }

  lemma BestMeaning(scores: seq<real>, k: nat, exclude: Option<nat>)
    ensures IsTop(scores, k, exclude, Best(scores, k, exclude))
  {
    var all := Sort(Before, Candidates(scores, exclude));
    SortRanksAll(scores, exclude);
    FrontIsTop(scores, k, exclude, all, if k <= |all| then k else |all|);
  }

  lemma FrontOrdered(all: seq<Scored>, n: nat)
    requires Sorted(Before, all) && Distinct(all) && n <= |all|
    requires forall a, b :: a in all && b in all && a.id == b.id ==> a == b
    ensures forall i, j :: 0 <= i < j < n ==>
              all[i].score > all[j].score || (all[i].score == all[j].score && all[i].id < all[j].id)
  {
    forall i, j | 0 <= i < j < n
      ensures all[i].score > all[j].score || (all[i].score == all[j].score && all[i].id < all[j].id)
    {
      assert Before(all[i], all[j]) && all[i] in all && all[j] in all;
    }
  }

  lemma FrontOfSorted(all: seq<Scored>, n: nat, c: Scored)
    requires Sorted(Before, all) && n <= |all|
    ensures Sorted(Before, all[..n])
    ensures c in all[..n] ==> c in all
    ensures c in all && c !in all[..n] ==> n < |all| && forall b :: b in all[..n] ==> Before(b, c)
  {
    if c in all && c !in all[..n] {
      var i :| 0 <= i < |all| && all[i] == c;
      assert i >= n;
    }
  }

  /** The rows in the running. */
  method Score(scores: seq<real>, exclude: Option<nat>) returns (scored: seq<Scored>)
    ensures scored == Candidates(scores, exclude)
  {
    scored := [];
    for i := 0 to |scores|
      invariant scored == Candidates(scores[..i], exclude)
    {
      assert scores[..i + 1][..i] == scores[..i];
      if exclude != Some(i) && scores[i] > 0.0 {
        scored := scored + [Scored(i, scores[i])];
      }
    }
    assert scores[..|scores|] == scores;
  }

  method Find(scores: seq<real>, k: nat, exclude: Option<nat>) returns (top: seq<Scored>)
    ensures top == Best(scores, k, exclude)
    ensures IsTop(scores, k, exclude, top)
  {
    BestMeaning(scores, k, exclude);
    var scored := Score(scores, exclude);
    BestCut(scores, k, exclude);
    if scored == [] || k == 0 {
      return [];
    }
    var n := if k <= |scored| then k else |scored|;
    var p := SelectNth(scored, n - 1);
    SameLength(p, scored);
    CutThenSort(scored, p, n);
    top := Sort(Before, p[..n]);
  }

  lemma SameLength(a: seq<Scored>, b: seq<Scored>)
    requires multiset(a) == multiset(b)
    ensures |a| == |b|
  {
    assert |multiset(a)| == |multiset(b)|;
  }

  lemma BestCut(scores: seq<real>, k: nat, exclude: Option<nat>)
    ensures var s := Candidates(scores, exclude);
            && |Sort(Before, s)| == |s|
            && Best(scores, k, exclude) == Sort(Before, s)[..if k <= |s| then k else |s|]
  {
    SortIsSorted(Before, Candidates(scores, exclude));
  }
}
