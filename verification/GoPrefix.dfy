/** Prefixes of Go router functions, by rounds over mount edges. */
module GoPrefix {
  import opened Common
  import opened Paths

  /** `src` mounts or registers `tgt` under `seg`; `None` when the segment is not known. */
  datatype MountEdge = MountEdge(src: nat, tgt: nat, seg: Option<string>, confidence: Confidence)

  datatype Prefix = Prefix(path: string, confidence: Confidence)

  /** `None` marks a function whose prefix is ambiguous. */
  type Table = map<nat, Option<Prefix>>

  const MAX_ROUNDS: nat := 8

  // ---- One round ----

  /** What `e` says about its target, given the previous round. */
  function Value(fp: Table, e: MountEdge): Option<Prefix> {
    if e.seg.None? then None
    else if e.src !in fp then Some(Prefix(e.seg.value, e.confidence))
    else match fp[e.src]
      case None => None
      case Some(base) => Some(Prefix(JoinPrefix(base.path, e.seg.value), Worse(base.confidence, e.confidence)))
  }

  function Put(next: Table, t: nat, v: Option<Prefix>): Table {
    if v.None? then next[t := None]
    else if t !in next then next[t := v]
    else match next[t]
      case None => next
      case Some(prior) =>
        if prior.path != v.value.path then next[t := None]
        else next[t := Some(Prefix(prior.path, Worse(prior.confidence, v.value.confidence)))]
  }

  function Round(edges: seq<MountEdge>, fp: Table): Table
    decreases |edges|
  {
    if edges == [] then map[]
    else
      var k := |edges| - 1;
      Put(Round(edges[..k], fp), edges[k].tgt, Value(fp, edges[k]))
  }

  function Rounds(edges: seq<MountEdge>, n: nat): Table {
    if n == 0 then map[] else Round(edges, Rounds(edges, n - 1))
  }

  lemma {:induction false} FixpointStays(edges: seq<MountEdge>, n: nat, m: nat)
    requires n <= m && Round(edges, Rounds(edges, n)) == Rounds(edges, n)
    ensures Rounds(edges, m) == Rounds(edges, n)
  {
    if n < m { FixpointStays(edges, n, m - 1); }
  }

  method OneRound(edges: seq<MountEdge>, fp: Table) returns (next: Table)
    ensures next == Round(edges, fp)
  {
    next := map[];
    for i := 0 to |edges|
      invariant next == Round(edges[..i], fp)
    {
      assert edges[..i + 1][..i] == edges[..i];
      var e := edges[i];
      var val: Option<Prefix> := None;
      if e.seg.Some? {
        if e.src !in fp {
          val := Some(Prefix(e.seg.value, e.confidence));
        } else if fp[e.src].Some? {
          var base := fp[e.src].value;
          val := Some(Prefix(JoinPrefix(base.path, e.seg.value), Worse(base.confidence, e.confidence)));
        }
      }
      match val {
        case None => next := next[e.tgt := None];
        case Some(p) =>
          if e.tgt !in next {
            next := next[e.tgt := val];
          } else if next[e.tgt].Some? {
            var prior := next[e.tgt].value;
            next := next[e.tgt :=
              if prior.path != p.path then None
              else Some(Prefix(prior.path, Worse(prior.confidence, p.confidence)))];
          }
      }
    }
    assert edges[..|edges|] == edges;
  }

  /** At most eight rounds, fewer when one changes nothing. */
  method Prefixes(edges: seq<MountEdge>) returns (fp: Table)
    ensures fp == Rounds(edges, 8)
  {
    fp := map[];
    for n := 0 to MAX_ROUNDS
      invariant fp == Rounds(edges, n)
    {
      var next := OneRound(edges, fp);
      if next == fp {
        FixpointStays(edges, n, MAX_ROUNDS);
        return;
      }
      fp := next;
    }
  }

  // ---- What a round says of one function ----

  ghost predicate Into(edges: seq<MountEdge>, e: MountEdge, t: nat) {
    e in edges && e.tgt == t
  }

  ghost predicate Unmounted(edges: seq<MountEdge>, t: nat) {
    forall e :: !Into(edges, e, t)
  }

  /** The entry of `t` sums up the values of the edges into it, in no particular order. */
  ghost predicate Merges(edges: seq<MountEdge>, fp: Table, t: nat, next: Table) {
    && (t in next <==> !Unmounted(edges, t))
    && (t in next ==>
          && (next[t].None? <==>
                || (exists e :: Into(edges, e, t) && Value(fp, e).None?)
                || (exists e, x :: Into(edges, e, t) && Into(edges, x, t) && Conflict(fp, e, x)))
          && (next[t].Some? ==>
                && (forall e :: Into(edges, e, t) ==>
                      Value(fp, e).Some? && Value(fp, e).value.path == next[t].value.path)
                && (next[t].value.confidence == High <==>
                      forall e :: Into(edges, e, t) ==> Value(fp, e).Some? && Value(fp, e).value.confidence == High)))
  }

  ghost predicate Conflict(fp: Table, e: MountEdge, x: MountEdge) {
    Value(fp, e).Some? && Value(fp, x).Some? && Value(fp, e).value.path != Value(fp, x).value.path
  }

  lemma {:induction false} RoundMerges(edges: seq<MountEdge>, fp: Table, t: nat)
    ensures Merges(edges, fp, t, Round(edges, fp))
    decreases |edges|
  {
    if edges != [] {
      var k := |edges| - 1;
      var front, last := edges[..k], edges[k];
      RoundMerges(front, fp, t);
      assert forall e :: Into(edges, e, t) <==> Into(front, e, t) || (e == last && e.tgt == t);
      if last.tgt != t {
        assert forall e :: Into(edges, e, t) <==> Into(front, e, t);
        OtherPut(edges, front, last, fp, t);
      } else if Unmounted(front, t) {
        FirstPut(edges, front, last, fp, t);
      } else {
        LaterPut(edges, front, last, fp, t);
      }
    }
  }

  lemma OtherPut(edges: seq<MountEdge>, front: seq<MountEdge>, last: MountEdge, fp: Table, t: nat)
    requires Merges(front, fp, t, Round(front, fp)) && last.tgt != t
    requires forall e :: Into(edges, e, t) <==> Into(front, e, t)
    ensures Merges(edges, fp, t, Put(Round(front, fp), last.tgt, Value(fp, last)))
  {
  }

  lemma FirstPut(edges: seq<MountEdge>, front: seq<MountEdge>, last: MountEdge, fp: Table, t: nat)
    requires Merges(front, fp, t, Round(front, fp)) && last.tgt == t && Unmounted(front, t)
    requires forall e :: Into(edges, e, t) <==> Into(front, e, t) || e == last
    ensures Merges(edges, fp, t, Put(Round(front, fp), last.tgt, Value(fp, last)))
  {
    assert forall e :: Into(edges, e, t) <==> e == last;
    assert Into(edges, last, t);
  }

  lemma LaterPut(edges: seq<MountEdge>, front: seq<MountEdge>, last: MountEdge, fp: Table, t: nat)
    requires Merges(front, fp, t, Round(front, fp)) && last.tgt == t && !Unmounted(front, t)
    requires forall e :: Into(edges, e, t) <==> Into(front, e, t) || e == last
    ensures Merges(edges, fp, t, Put(Round(front, fp), last.tgt, Value(fp, last)))
  {
    var prior, next := Round(front, fp), Put(Round(front, fp), last.tgt, Value(fp, last));
    assert Into(edges, last, t);
    var x: MountEdge :| Into(front, x, t);
    assert Into(edges, x, t);
    if next[t].Some? {
      assert prior[t].Some? && Value(fp, last).Some?;
    } else if prior[t].Some? && Value(fp, last).Some? {
      assert Conflict(fp, x, last);
    } else if prior[t].None? {
      if e :| Into(front, e, t) && Value(fp, e).None? {
        assert Into(edges, e, t);
      } else {
        var e, y :| Into(front, e, t) && Into(front, y, t) && Conflict(fp, e, y);
        assert Into(edges, e, t) && Into(edges, y, t);
      }
    }
  }

  // ---- Mount chains ----

  /** `c` is a chain of edges that ends at `t`. */
  ghost predicate Chain(edges: seq<MountEdge>, c: seq<MountEdge>, t: nat)
    decreases |c|
  {
    c != [] && (var k := |c| - 1; Into(edges, c[k], t) && (k > 0 ==> Chain(edges, c[..k], c[k].src)))
  }

  /** No chain into `t` has more than `k` edges. */
  ghost predicate Within(edges: seq<MountEdge>, t: nat, k: nat) {
    forall c :: Chain(edges, c, t) ==> |c| <= k
  }

  lemma ChainLast(edges: seq<MountEdge>, c: seq<MountEdge>, t: nat)
    requires Chain(edges, c, t)
    ensures Into(edges, c[|c| - 1], t)
  {
  }

  lemma ChainExtend(edges: seq<MountEdge>, c: seq<MountEdge>, e: MountEdge, t: nat)
    requires Chain(edges, c, e.src) && Into(edges, e, t)
    ensures Chain(edges, c + [e], t)
  {
    assert (c + [e])[..|c|] == c;
  }

  /** A chain into the source of an edge is shorter than one through the edge. */
  lemma SourceWithin(edges: seq<MountEdge>, e: MountEdge, t: nat, k: nat)
    requires Within(edges, t, k) && Into(edges, e, t)
    ensures k > 0 && Within(edges, e.src, k - 1)
  {
    assert Chain(edges, [e], t);
    forall c | Chain(edges, c, e.src)
      ensures |c| <= k - 1
    {
      ChainExtend(edges, c, e, t);
    }
  }

  ghost predicate SameRow(a: Table, b: Table, t: nat) {
    (t in a <==> t in b) && (t in a ==> a[t] == b[t])
  }

  /** A round gives a function the same entry when the sources of its edges have the same ones. */
  lemma {:induction false} RoundReadsSources(edges: seq<MountEdge>, a: Table, b: Table, t: nat)
    requires forall e :: Into(edges, e, t) ==> SameRow(a, b, e.src)
    ensures SameRow(Round(edges, a), Round(edges, b), t)
    decreases |edges|
  {
    if edges != [] {
      var k := |edges| - 1;
      assert forall e :: Into(edges[..k], e, t) ==> Into(edges, e, t);
      RoundReadsSources(edges[..k], a, b, t);
      if edges[k].tgt == t {
        assert Into(edges, edges[k], t);
        assert Value(a, edges[k]) == Value(b, edges[k]);
      }
      PutReads(Round(edges[..k], a), Round(edges[..k], b), edges[k].tgt, Value(a, edges[k]), Value(b, edges[k]), t);
    }
  }

  lemma PutReads(a: Table, b: Table, tgt: nat, v: Option<Prefix>, w: Option<Prefix>, t: nat)
    requires SameRow(a, b, t) && (tgt == t ==> v == w)
    ensures SameRow(Put(a, tgt, v), Put(b, tgt, w), t)
  {
  }

  /** Whatever table is left alone by a round, after `k` rounds the entries of functions with no
      chain above `k` edges are those of the fixpoint. */
  lemma {:induction false} RoundsReach(edges: seq<MountEdge>, fix: Table, t: nat, k: nat, n: nat)
    requires Round(edges, fix) == fix && Within(edges, t, k) && k <= n
    ensures SameRow(fix, Rounds(edges, n), t)
    decreases k
  {
    forall e | Into(edges, e, t)
      ensures n > 0 && SameRow(fix, Rounds(edges, n - 1), e.src)
    {
      SourceWithin(edges, e, t, k);
      RoundsReach(edges, fix, e.src, k - 1, n - 1);
    }
    if n > 0 {
      RoundReadsSources(edges, fix, Rounds(edges, n - 1), t);
    } else {
      NoEdgeNoEntry(edges, fix, t);
    }
  }

  lemma {:induction false} RoundsSettle(edges: seq<MountEdge>, t: nat, k: nat, n: nat)
    requires Within(edges, t, k) && k <= n
    ensures SameRow(Rounds(edges, n + 1), Rounds(edges, n), t)
    decreases k
  {
    forall e | Into(edges, e, t)
      ensures n > 0 && SameRow(Rounds(edges, n), Rounds(edges, n - 1), e.src)
    {
      SourceWithin(edges, e, t, k);
      RoundsSettle(edges, e.src, k - 1, n - 1);
    }
    if n > 0 {
      RoundReadsSources(edges, Rounds(edges, n), Rounds(edges, n - 1), t);
    } else {
      NoEdgeNoEntry(edges, map[], t);
    }
  }

  lemma NoEdgeNoEntry(edges: seq<MountEdge>, fp: Table, t: nat)
    requires forall e :: !Into(edges, e, t)
    ensures t !in Round(edges, fp)
  {
    RoundMerges(edges, fp, t);
  }

  /** No chain of mount edges is longer than the rounds allow (so none runs round a cycle). */
  ghost predicate Shallow(edges: seq<MountEdge>) {
    forall t :: Within(edges, t, 8)
  }

  lemma SameRows(a: Table, b: Table)
    requires forall t :: SameRow(a, b, t)
    ensures a == b
  {
    forall t | t in a.Keys + b.Keys
      ensures t in a && t in b && a[t] == b[t]
    {
      assert SameRow(a, b, t);
    }
    assert a.Keys == b.Keys;
  }

  /** On edges without chains of more than eight, the loop ends at a table that a further round
      leaves alone, and there is only one such table. */
  lemma RoundsReachFixpoint(edges: seq<MountEdge>)
    requires Shallow(edges)
    ensures Round(edges, Rounds(edges, 8)) == Rounds(edges, 8)
    ensures forall fix :: Round(edges, fix) == fix ==> fix == Rounds(edges, 8)
  {
    var last, more := Rounds(edges, 8), Rounds(edges, 9);
    forall t: nat
      ensures SameRow(more, last, t)
    {
      assert Within(edges, t, 8);
      RoundsSettle(edges, t, 8, 8);
    }
    SameRows(more, last);
    forall fix | Round(edges, fix) == fix
      ensures fix == Rounds(edges, 8)
    {
      forall t: nat
        ensures SameRow(fix, Rounds(edges, 8), t)
      {
        assert Within(edges, t, 8);
        RoundsReach(edges, fix, t, 8, 8);
      }
      SameRows(fix, Rounds(edges, 8));
    }
  }

  // ---- The order of the edges ----

  lemma MergesOnce(e1: seq<MountEdge>, e2: seq<MountEdge>, fp: Table, t: nat)
    requires forall e :: e in e1 <==> e in e2
    ensures SameRow(Round(e1, fp), Round(e2, fp), t)
  {
    RoundMerges(e1, fp, t);
    RoundMerges(e2, fp, t);
    assert forall e :: Into(e1, e, t) <==> Into(e2, e, t);
    assert Unmounted(e1, t) <==> Unmounted(e2, t);
    if t in Round(e1, fp) && Round(e1, fp)[t].Some? && Round(e2, fp)[t].Some? {
      var e :| Into(e1, e, t);
    }
  }

  /** Neither the order of the edges nor repeating one changes the outcome of any number of rounds. */
  lemma {:induction false} EdgeOrderDoesNotMatter(e1: seq<MountEdge>, e2: seq<MountEdge>, n: nat)
    requires forall e :: e in e1 <==> e in e2
    ensures Rounds(e1, n) == Rounds(e2, n)
  {
    if n > 0 {
      EdgeOrderDoesNotMatter(e1, e2, n - 1);
      forall t: nat
        ensures SameRow(Rounds(e1, n), Rounds(e2, n), t)
      {
        MergesOnce(e1, e2, Rounds(e1, n - 1), t);
      }
      SameRows(Rounds(e1, n), Rounds(e2, n));
    }
  }

  // ---- What the prefixes mean ----

  /** A chain that starts at a function nobody mounts. */
  ghost predicate Maximal(edges: seq<MountEdge>, c: seq<MountEdge>, t: nat) {
    Chain(edges, c, t) && Unmounted(edges, c[0].src)
  }

  /** The segments of a chain joined outermost first, when all are known. */
  ghost function Compose(c: seq<MountEdge>): Option<string>
    requires c != []
    decreases |c|
  {
    var k := |c| - 1;
    if k == 0 then c[0].seg
    else
      var base := Compose(c[..k]);
      if base.None? || c[k].seg.None? then None else Some(JoinPrefix(base.value, c[k].seg.value))
  }

  ghost predicate AllHigh(c: seq<MountEdge>) {
    forall e :: e in c ==> e.confidence == High
  }

  lemma MaximalExtend(edges: seq<MountEdge>, c: seq<MountEdge>, e: MountEdge, t: nat)
    requires Maximal(edges, c, e.src) && Into(edges, e, t)
    ensures Maximal(edges, c + [e], t)
  {
    ChainExtend(edges, c, e, t);
  }

  /** Every edge into `t` ends some maximal chain. */
  lemma {:induction false} MaximalThrough(edges: seq<MountEdge>, e: MountEdge, t: nat, k: nat)
    returns (c: seq<MountEdge>)
    requires Within(edges, t, k) && Into(edges, e, t)
    ensures Maximal(edges, c, t) && c[|c| - 1] == e
    decreases k
  {
    SourceWithin(edges, e, t, k);
    if Unmounted(edges, e.src) {
      c := [e];
    } else {
      var x :| Into(edges, x, e.src);
      c := MaximalThrough(edges, x, e.src, k - 1);
      MaximalExtend(edges, c, e, t);
      c := c + [e];
    }
  }

  /** A stored prefix is the composition of every maximal chain into the function. */
  lemma {:induction false} PrefixComposes(edges: seq<MountEdge>, fp: Table, t: nat, c: seq<MountEdge>)
    requires Round(edges, fp) == fp && t in fp && fp[t].Some? && Maximal(edges, c, t)
    ensures Compose(c) == Some(fp[t].value.path)
    ensures fp[t].value.confidence == High ==> AllHigh(c)
    decreases |c|
  {
    var k := |c| - 1;
    var e := c[k];
    EdgeValue(edges, fp, t, e);
    MountedHasEntry(edges, fp, e.src);
    if k > 0 {
      ChainLast(edges, c[..k], e.src);
      PrefixComposes(edges, fp, e.src, c[..k]);
    }
    AllHighLast(c[..k], e);
    assert c == c[..k] + [e];
  }

  lemma AllHighLast(c: seq<MountEdge>, e: MountEdge)
    ensures AllHigh(c + [e]) <==> AllHigh(c) && e.confidence == High
  {
    assert e in c + [e] && forall x :: x in c ==> x in c + [e];
  }

  /** A stored prefix is what each edge into the function says. */
  lemma EdgeValue(edges: seq<MountEdge>, fp: Table, t: nat, e: MountEdge)
    requires Round(edges, fp) == fp && t in fp && fp[t].Some? && Into(edges, e, t)
    ensures Value(fp, e).Some? && Value(fp, e).value.path == fp[t].value.path
    ensures fp[t].value.confidence == High ==> Value(fp, e).value.confidence == High
  {
    RoundMerges(edges, fp, t);
    assert Value(fp, e).Some?;
  }

  lemma MountedHasEntry(edges: seq<MountEdge>, fp: Table, t: nat)
    requires Round(edges, fp) == fp
    ensures t in fp <==> !Unmounted(edges, t)
  {
    RoundMerges(edges, fp, t);
  }

  /** It is High when every maximal chain is High throughout. */
  lemma {:induction false} PrefixIsHigh(edges: seq<MountEdge>, fp: Table, t: nat, k: nat)
    requires Round(edges, fp) == fp && Within(edges, t, k) && t in fp && fp[t].Some?
    requires forall c :: Maximal(edges, c, t) ==> AllHigh(c)
    ensures fp[t].value.confidence == High
    decreases k
  {
    RoundMerges(edges, fp, t);
    forall e | Into(edges, e, t)
      ensures Value(fp, e).Some? && Value(fp, e).value.confidence == High
    {
      assert Value(fp, e).Some?;
      SourceWithin(edges, e, t, k);
      var c := MaximalThrough(edges, e, t, k);
      assert e in c;
      if e.src in fp {
        forall x | Maximal(edges, x, e.src)
          ensures AllHigh(x)
        {
          MaximalExtend(edges, x, e, t);
          assert forall y :: y in x ==> y in x + [e];
        }
        PrefixIsHigh(edges, fp, e.src, k - 1);
      }
    }
  }

  // ---- Where a conflict comes from ----

  ghost predicate AtOrAbove(edges: seq<MountEdge>, u: nat, t: nat) {
    u == t || exists c: seq<MountEdge> :: Chain(edges, c, t) && c[0].src == u
  }

  /** An edge into `u` has no known segment, or two maximal chains into `u` compose to different
      prefixes. */
  ghost predicate Contested(edges: seq<MountEdge>, u: nat) {
    || (exists e :: Into(edges, e, u) && e.seg.None?)
    || (exists c, d :: Maximal(edges, c, u) && Maximal(edges, d, u) && Differ(c, d))
  }

  ghost predicate Differ(c: seq<MountEdge>, d: seq<MountEdge>)
    requires c != [] && d != []
  {
    Compose(c).Some? && Compose(d).Some? && Compose(c) != Compose(d)
  }

  lemma AboveSource(edges: seq<MountEdge>, u: nat, e: MountEdge, t: nat)
    requires AtOrAbove(edges, u, e.src) && Into(edges, e, t)
    ensures AtOrAbove(edges, u, t)
  {
    if u == e.src {
      assert Chain(edges, [e], t);
      assert [e][0].src == u;
    } else {
      var c: seq<MountEdge> :| Chain(edges, c, e.src) && c[0].src == u;
      ChainExtend(edges, c, e, t);
      assert (c + [e])[0].src == u;
    }
  }

  /** The composition of some maximal chain through `e` is what `e` says about its target. */
  lemma ValueComposes(edges: seq<MountEdge>, fp: Table, e: MountEdge, t: nat, k: nat) returns (c: seq<MountEdge>)
    requires Round(edges, fp) == fp && Within(edges, t, k) && Into(edges, e, t) && Value(fp, e).Some?
    ensures Maximal(edges, c, t) && Compose(c) == Some(Value(fp, e).value.path)
  {
    c := MaximalThrough(edges, e, t, k);
    var n := |c| - 1;
    RoundMerges(edges, fp, e.src);
    if n > 0 {
      ChainLast(edges, c[..n], e.src);
      PrefixComposes(edges, fp, e.src, c[..n]);
    }
  }

  lemma {:induction false} ConflictHasCause(edges: seq<MountEdge>, fp: Table, t: nat, k: nat)
    requires Round(edges, fp) == fp && Within(edges, t, k) && t in fp && fp[t].None?
    ensures exists u :: AtOrAbove(edges, u, t) && Contested(edges, u)
    decreases k
  {
    RoundMerges(edges, fp, t);
    if e :| Into(edges, e, t) && Value(fp, e).None? {
      if e.seg.None? {
        assert AtOrAbove(edges, t, t) && Contested(edges, t);
      } else {
        SourceWithin(edges, e, t, k);
        ConflictHasCause(edges, fp, e.src, k - 1);
        var u :| AtOrAbove(edges, u, e.src) && Contested(edges, u);
        AboveSource(edges, u, e, t);
      }
    } else {
      var e, x :| Into(edges, e, t) && Into(edges, x, t) && Conflict(fp, e, x);
      var c := ValueComposes(edges, fp, e, t, k);
      var d := ValueComposes(edges, fp, x, t, k);
      assert Differ(c, d);
      assert AtOrAbove(edges, t, t) && Contested(edges, t);
    }
  }

  lemma ContestedIsNone(edges: seq<MountEdge>, fp: Table, u: nat)
    requires Round(edges, fp) == fp && Contested(edges, u)
    ensures u in fp && fp[u].None?
  {
    RoundMerges(edges, fp, u);
    if e :| Into(edges, e, u) && e.seg.None? {
      assert Value(fp, e).None?;
    } else {
      var c, d :| Maximal(edges, c, u) && Maximal(edges, d, u) && Differ(c, d);
      assert Into(edges, c[|c| - 1], u);
      if fp[u].Some? {
        PrefixComposes(edges, fp, u, c);
        PrefixComposes(edges, fp, u, d);
      }
    }
  }

  lemma {:induction false} NoneSpreads(edges: seq<MountEdge>, fp: Table, c: seq<MountEdge>, t: nat)
    requires Round(edges, fp) == fp && Chain(edges, c, t) && c[0].src in fp && fp[c[0].src].None?
    ensures t in fp && fp[t].None?
    decreases |c|
  {
    var k := |c| - 1;
    if k > 0 { NoneSpreads(edges, fp, c[..k], c[k].src); }
    RoundMerges(edges, fp, t);
    assert Into(edges, c[k], t) && Value(fp, c[k]).None?;
  }

  /** At the fixpoint a function has an entry exactly when it is mounted; the entry is a conflict
      exactly when an edge with no known segment, or a disagreement, lies at or above it; otherwise
      it is what every maximal chain composes to, High exactly when all those chains are. */
  lemma PrefixMeaning(edges: seq<MountEdge>, t: nat)
    requires Shallow(edges)
    ensures var fp := Rounds(edges, 8);
            && (t in fp <==> !Unmounted(edges, t))
            && (t in fp && fp[t].None? <==> exists u :: AtOrAbove(edges, u, t) && Contested(edges, u))
            && (t in fp && fp[t].Some? ==>
                  && (forall c :: Maximal(edges, c, t) ==> Compose(c) == Some(fp[t].value.path))
                  && (fp[t].value.confidence == High <==> forall c :: Maximal(edges, c, t) ==> AllHigh(c))
                  && exists c :: Maximal(edges, c, t))
  {
    var fp := Rounds(edges, 8);
    RoundsReachFixpoint(edges);
    RoundMerges(edges, fp, t);
    assert Within(edges, t, 8);
    if u :| AtOrAbove(edges, u, t) && Contested(edges, u) {
      ContestedIsNone(edges, fp, u);
      if u != t {
        var c: seq<MountEdge> :| Chain(edges, c, t) && c[0].src == u;
        NoneSpreads(edges, fp, c, t);
      }
    }
    if t in fp && fp[t].None? {
      ConflictHasCause(edges, fp, t, 8);
    }
    if t in fp && fp[t].Some? {
      PrefixIsMeant(edges, t);
    }
  }

  lemma PrefixIsMeant(edges: seq<MountEdge>, t: nat)
    requires Shallow(edges) && t in Rounds(edges, 8) && Rounds(edges, 8)[t].Some?
    ensures var p := Rounds(edges, 8)[t].value;
            && (forall c :: Maximal(edges, c, t) ==> Compose(c) == Some(p.path))
            && (p.confidence == High <==> forall c :: Maximal(edges, c, t) ==> AllHigh(c))
            && exists c :: Maximal(edges, c, t)
  {
    var fp := Rounds(edges, 8);
    RoundsReachFixpoint(edges);
    RoundMerges(edges, fp, t);
    assert Within(edges, t, 8);
    forall c | Maximal(edges, c, t)
      ensures Compose(c) == Some(fp[t].value.path) && (fp[t].value.confidence == High ==> AllHigh(c))
    {
      PrefixComposes(edges, fp, t, c);
    }
    if forall c :: Maximal(edges, c, t) ==> AllHigh(c) {
      PrefixIsHigh(edges, fp, t, 8);
    }
    var e :| Into(edges, e, t);
    var c := MaximalThrough(edges, e, t, 8);
  }
}
