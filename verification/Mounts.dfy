/** Mount facts, and the walkers that compose them into prefixes. */
module Mounts {
  import opened Common
  import opened Paths
  import opened Slashes

  // ---- Facts that degrade on conflict ----

  function UpsertVal<K, V(==)>(m: map<K, Option<V>>, k: K, v: Option<V>): map<K, Option<V>> {
    if k !in m then m[k := v] else if m[k] != v then m[k := None] else m
  }

  /** Only the prefixes are compared; the first origin stays. */
  function UpsertMountFile(m: map<nat, Option<(nat, string)>>, target: nat, from: nat, prefix: string): map<nat,
      Option<(nat, string)>> {
    if target !in m then m[target := Some((from, prefix))]
    else if m[target].None? || m[target].value.1 != prefix then m[target := None]
    else m
  }

  function UpsertVals<K, V(==)>(facts: seq<(K, Option<V>)>): map<K, Option<V>> {
    if facts == [] then map[]
    else var n := |facts| - 1; UpsertVal(UpsertVals(facts[..n]), facts[n].0, facts[n].1)
  }

  function UpsertMountFiles(facts: seq<(nat, nat, string)>): map<nat, Option<(nat, string)>> {
    if facts == [] then map[]
    else var n := |facts| - 1; UpsertMountFile(UpsertMountFiles(facts[..n]), facts[n].0, facts[n].1, facts[n].2)
  }

  /** A key ends up with the one value recorded for it; with none when two differ, or the value was
      unknown to begin with. */
  lemma {:induction false} UpsertValsMeaning<K, V>(facts: seq<(K, Option<V>)>, k: K)
    ensures k in UpsertVals(facts) <==> exists f :: f in facts && f.0 == k
    ensures k in UpsertVals(facts) && UpsertVals(facts)[k].Some? ==>
              forall f :: f in facts && f.0 == k ==> f.1 == UpsertVals(facts)[k]
    ensures k in UpsertVals(facts) && UpsertVals(facts)[k].None? ==>
              || (exists f :: f in facts && f.0 == k && f.1.None?)
              || (exists f, g :: f in facts && g in facts && f.0 == k && g.0 == k && f.1 != g.1)
  {
    if facts != [] {
      var n := |facts| - 1;
      UpsertValsMeaning(facts[..n], k);
      assert facts == facts[..n] + [facts[n]];
      assert forall f :: f in facts <==> f in facts[..n] || f == facts[n];
      var before := UpsertVals(facts[..n]);
      if facts[n].0 == k && k in before && before[k].Some? && before[k] != facts[n].1 {
        var f :| f in facts[..n] && f.0 == k;
        assert f in facts && facts[n] in facts && f.1 != facts[n].1;
      }
    }
  }

  lemma {:induction false} UpsertMountFilesMeaning(facts: seq<(nat, nat, string)>, k: nat)
    ensures k in UpsertMountFiles(facts) <==> exists f :: f in facts && f.0 == k
    ensures k in UpsertMountFiles(facts) && UpsertMountFiles(facts)[k].Some? ==>
              && (forall f :: f in facts && f.0 == k ==> f.2 == UpsertMountFiles(facts)[k].value.1)
              && exists i :: 0 <= i < |facts| && facts[i].0 == k && facts[i].1 == UpsertMountFiles(facts)[k].value.0
                             && forall j :: 0 <= j < i ==> facts[j].0 != k
    ensures k in UpsertMountFiles(facts) && UpsertMountFiles(facts)[k].None? ==>
              exists f, g :: f in facts && g in facts && f.0 == k && g.0 == k && f.2 != g.2
  {
    if facts != [] {
      var n := |facts| - 1;
      var front := facts[..n];
      UpsertMountFilesMeaning(front, k);
      assert facts == front + [facts[n]];
      assert forall f :: f in facts <==> f in front || f == facts[n];
      var before, after := UpsertMountFiles(front), UpsertMountFiles(facts);
      if k in before && before[k].Some? {
        var i :| 0 <= i < |front| && front[i].0 == k && front[i].1 == before[k].value.0
                && forall j :: 0 <= j < i ==> front[j].0 != k;
        assert facts[i] == front[i] && front[i] in front;
        assert forall j :: 0 <= j < i ==> facts[j] == front[j];
        if after[k].None? {
          assert facts[i] in facts && facts[n] in facts && facts[i].2 != facts[n].2;
        }
      } else if k !in before && facts[n].0 == k {
        forall j | 0 <= j < n
          ensures facts[j].0 != k
        {
          assert facts[j] == front[j] && front[j] in front;
        }
      }
    }
  }

  /** Facts recorded one by one. */
  class Facts<K(==), V(==)> {
    var facts: map<K, Option<V>>
    ghost var history: seq<(K, Option<V>)>

    ghost predicate Valid()
      reads this
    {
      facts == UpsertVals(history)
    }

    constructor ()
      ensures Valid() && history == []
    {
      facts, history := map[], [];
    }

    method UpsertVal(k: K, v: Option<V>)
      requires Valid()
      modifies this
      ensures Valid() && history == old(history) + [(k, v)]
    {
      if k !in facts {
        facts := facts[k := v];
      } else if facts[k] != v {
        facts := facts[k := None];
      }
      history := history + [(k, v)];
    }

    /** For values that are always known. */
    method UpsertMount(k: K, v: V)
      requires Valid()
      modifies this
      ensures Valid() && history == old(history) + [(k, Some(v))]
    {
      if k !in facts {
        facts := facts[k := Some(v)];
      } else if facts[k] != Some(v) {
        facts := facts[k := None];
      }
      history := history + [(k, Some(v))];
    }
  }

  /** Which file mounts a file, recorded mount by mount. */
  class FileMounts {
    var mounts: map<nat, Option<(nat, string)>>
    ghost var history: seq<(nat, nat, string)>

    ghost predicate Valid()
      reads this
    {
      mounts == UpsertMountFiles(history)
    }

    constructor ()
      ensures Valid() && history == []
    {
      mounts, history := map[], [];
    }

    method UpsertMountFile(target: nat, from: nat, prefix: string)
      requires Valid()
      modifies this
      ensures Valid() && history == old(history) + [(target, from, prefix)]
    {
      if target !in mounts {
        mounts := mounts[target := Some((from, prefix))];
      } else if mounts[target].None? || mounts[target].value.1 != prefix {
        mounts := mounts[target := None];
      }
      history := history + [(target, from, prefix)];
    }
  }

  // ---- Folding joins ----

  /** `base` with the prefixes joined on, first to last. */
  function FoldJoin(base: string, parts: seq<string>): string {
    if parts == [] then base
    else var n := |parts| - 1; JoinPrefix(FoldJoin(base, parts[..n]), parts[n])
  }

  /** The inner mounts may be composed first. */
  lemma {:induction false} FoldJoinRegroups(base: string, parts: seq<string>)
    requires parts != []
    ensures FoldJoin(base, parts) == JoinPrefix(base, FoldJoin(parts[0], parts[1..]))
  {
    var n := |parts| - 1;
    if n == 0 {
      assert parts[..0] == [] && parts[1..] == [];
    } else {
      FoldJoinRegroups(base, parts[..n]);
      assert parts[..n][1..] == parts[1..][..n - 1] && parts[1..][n - 1] == parts[n];
      JoinAssociative(base, FoldJoin(parts[0], parts[1..n]), parts[n]);
    }
  }

  lemma FoldJoinPush(base: string, parts: seq<string>, p: string)
    ensures FoldJoin(base, parts + [p]) == JoinPrefix(FoldJoin(base, parts), p)
  {
    assert (parts + [p])[..|parts|] == parts;
  }

  lemma {:induction false} FoldJoinAppend(base: string, a: seq<string>, b: seq<string>)
    ensures FoldJoin(base, a + b) == FoldJoin(FoldJoin(base, a), b)
  {
    if b == [] {
      assert a + b == a;
    } else {
      var n := |b| - 1;
      FoldJoinAppend(base, a, b[..n]);
      assert (a + b)[..|a + b| - 1] == a + b[..n];
    }
  }

  // ---- Python: eff(f) = eff(parent) + edge prefix + own prefix ----

  datatype PyEdge = PyEdge(parent: nat, prefix: string, appendOwn: bool)

  type Owns = map<nat, Option<string>>
  type PyEdges = map<nat, Option<PyEdge>>

  const PY_MAX_DEPTH: nat := 12

  function ResolvePyMount(f: nat, own: Owns, edges: PyEdges, depth: nat): Option<(string, bool)>
    decreases PY_MAX_DEPTH + 1 - depth
  {
    if depth > PY_MAX_DEPTH then None
    else if f in own && own[f].None? then None
    else
      var ownP := if f in own then own[f].value else "";
      if f !in edges then Some((ownP, false))
      else match edges[f]
        case None => None
        case Some(e) =>
          match ResolvePyMount(e.parent, own, edges, depth + 1)
          case None => None
          case Some(base) =>
            var p := JoinPrefix(base.0, e.prefix);
            Some((if e.appendOwn && ownP != "" then JoinPrefix(p, ownP) else p, true))
  }

  /** `line` goes from a file up its mounts to a file that nobody mounts. */
  ghost predicate Line(edges: PyEdges, line: seq<nat>) {
    && line != []
    && (if |line| == 1 then line[0] !in edges
        else
          line[0] in edges && edges[line[0]].Some? && edges[line[0]].value.parent == line[1]
          && Line(edges, line[1..]))
  }

  ghost predicate Clean(own: Owns, line: seq<nat>) {
    forall i :: 0 <= i < |line| ==> line[i] in own ==> own[line[i]].Some?
  }

  function OwnPrefix(own: Owns, f: nat): string {
    if f in own && own[f].Some? then own[f].value else ""
  }

  /** The prefixes met from the top of the line down to its first file, after the top's own. */
  ghost function PyParts(own: Owns, edges: PyEdges, line: seq<nat>): seq<string>
    requires Line(edges, line)
  {
    if |line| == 1 then []
    else
      var e := edges[line[0]].value;
      PyParts(own, edges, line[1..]) + [e.prefix]
      + (if e.appendOwn && OwnPrefix(own, line[0]) != "" then [OwnPrefix(own, line[0])] else [])
  }

  ghost function PyComposed(own: Owns, edges: PyEdges, line: seq<nat>): string
    requires Line(edges, line)
  {
    FoldJoin(OwnPrefix(own, line[|line| - 1]), PyParts(own, edges, line))
  }

  lemma PyComposedStep(own: Owns, edges: PyEdges, line: seq<nat>)
    requires Line(edges, line) && |line| > 1
    ensures var e := edges[line[0]].value;
            var p := JoinPrefix(PyComposed(own, edges, line[1..]), e.prefix);
            PyComposed(own, edges, line) ==
              if e.appendOwn && OwnPrefix(own, line[0]) != "" then JoinPrefix(p, OwnPrefix(own, line[0])) else p
  {
    var e, o := edges[line[0]].value, OwnPrefix(own, line[0]);
    var parts := PyParts(own, edges, line[1..]);
    var top := OwnPrefix(own, line[|line| - 1]);
    assert line[1..][|line| - 2] == line[|line| - 1];
    FoldJoinPush(top, parts, e.prefix);
    FoldJoinPush(top, parts + [e.prefix], o);
    assert parts + [e.prefix] + [] == parts + [e.prefix];
  }

  lemma {:induction false} LineResolves(own: Owns, edges: PyEdges, line: seq<nat>, depth: nat)
    requires Line(edges, line) && Clean(own, line) && depth + |line| <= PY_MAX_DEPTH + 1
    ensures ResolvePyMount(line[0], own, edges, depth) == Some((PyComposed(own, edges, line), |line| > 1))
  {
    assert line[0] in own ==> own[line[0]].Some?;
    if |line| > 1 {
      assert Clean(own, line[1..]);
      LineResolves(own, edges, line[1..], depth + 1);
      PyComposedStep(own, edges, line);
    }
  }

  lemma {:induction false} ResolvedHasLine(own: Owns, edges: PyEdges, f: nat, depth: nat) returns (line: seq<nat>)
    requires ResolvePyMount(f, own, edges, depth).Some?
    ensures Line(edges, line) && line[0] == f && Clean(own, line) && depth + |line| <= PY_MAX_DEPTH + 1
    decreases PY_MAX_DEPTH + 1 - depth
  {
    if f !in edges {
      line := [f];
    } else {
      var rest := ResolvedHasLine(own, edges, edges[f].value.parent, depth + 1);
      line := [f] + rest;
      assert line[1..] == rest;
    }
  }

  /** A file has a composed mount exactly when its mounts lead, in at most twelve steps and past no
      poisoned fact, to a file that nobody mounts; the mount is then one fold of joins along them. */
  lemma PyMountMeaning(own: Owns, edges: PyEdges, f: nat)
    ensures var r := ResolvePyMount(f, own, edges, 0);
            && (r.Some? <==> exists line :: MountLine(own, edges, f, line))
            && (forall line :: MountLine(own, edges, f, line) ==> r == Some((PyComposed(own, edges, line), |line| > 1)))
  {
    if ResolvePyMount(f, own, edges, 0).Some? {
      var line := ResolvedHasLine(own, edges, f, 0);
      assert MountLine(own, edges, f, line);
    }
    forall line | MountLine(own, edges, f, line)
      ensures ResolvePyMount(f, own, edges, 0) == Some((PyComposed(own, edges, line), |line| > 1))
    {
      LineResolves(own, edges, line, 0);
    }
  }

  ghost predicate MountLine(own: Owns, edges: PyEdges, f: nat, line: seq<nat>) {
    Line(edges, line) && line[0] == f && Clean(own, line) && |line| <= 13
  }

  /** `up` follows mounts from file to mounting file. */
  ghost predicate Up(edges: PyEdges, up: seq<nat>) {
    forall i :: 0 <= i && i + 1 < |up| ==>
      up[i] in edges && edges[up[i]].Some? && edges[up[i]].value.parent == up[i + 1]
  }

  lemma {:induction false} LineFollows(edges: PyEdges, line: seq<nat>, up: seq<nat>)
    requires Line(edges, line) && Up(edges, up) && up != [] && up[0] == line[0]
    ensures |up| <= |line| && up == line[..|up|]
    ensures Line(edges, line[|up| - 1..])
  {
    if |up| > 1 {
      assert up[0] in edges && edges[up[0]].value.parent == up[0 + 1];
      assert forall i :: 0 <= i < |up| - 1 ==> up[1..][i] == up[i + 1];
      LineFollows(edges, line[1..], up[1..]);
      assert line[1..][|up| - 2..] == line[|up| - 1..];
      assert up == [up[0]] + up[1..];
    }
  }

  lemma {:induction false} LineUnique(edges: PyEdges, a: seq<nat>, b: seq<nat>)
    requires Line(edges, a) && Line(edges, b) && a[0] == b[0]
    ensures a == b
  {
    if |a| > 1 {
      LineUnique(edges, a[1..], b[1..]);
      assert a == [a[0]] + a[1..] && b == [b[0]] + b[1..];
    }
  }

  /** Mounts that come back to a file never end at one that nobody mounts. */
  lemma LineHasNoCycle(edges: PyEdges, line: seq<nat>, up: seq<nat>, i: nat)
    requires Line(edges, line) && Up(edges, up) && i + 1 < |up| && up[0] == line[0]
    ensures up[i] != up[|up| - 1]
  {
    var n := |up| - 1;
    LineFollows(edges, line, up);
    LineFollows(edges, line, up[..i + 1]);
    assert line[n] == up[n] && line[i] == up[i];
    if up[i] == up[n] {
      LineUnique(edges, line[i..], line[n..]);
    }
  }

  /** The last file of `up` is on the line, so it is not poisoned. */
  lemma LineIsClean(own: Owns, edges: PyEdges, line: seq<nat>, up: seq<nat>)
    requires Line(edges, line) && Clean(own, line) && Up(edges, up) && up != [] && up[0] == line[0]
    ensures var last := up[|up| - 1];
            (last in own ==> own[last].Some?) && (last in edges ==> edges[last].Some?)
  {
    var n := |up| - 1;
    LineFollows(edges, line, up);
    assert line[n] == up[n] && line[n..][0] == line[n];
  }

  /** A file whose mounts run into a cycle, or into a poisoned fact, has no composed mount. */
  lemma PyMountNone(own: Owns, edges: PyEdges, up: seq<nat>, i: nat)
    requires Up(edges, up) && i < |up|
    requires var last := up[|up| - 1];
             || (i + 1 < |up| && up[i] == last)
             || (last in own && own[last].None?)
             || (last in edges && edges[last].None?)
    ensures ResolvePyMount(up[0], own, edges, 0) == None
  {
    if ResolvePyMount(up[0], own, edges, 0).Some? {
      var line := ResolvedHasLine(own, edges, up[0], 0);
      LineIsClean(own, edges, line, up);
      if i + 1 < |up| {
        LineHasNoCycle(edges, line, up, i);
      }
      assert false;
    }
  }

  // ---- Rust: climbing nest and merge edges ----

  type Parents = map<nat, Option<(string, nat)>>

  predicate HasParent(parents: Parents, id: nat) {
    id in parents && parents[id].Some?
  }

  /** The functions met from the last of `seen` upwards, each once. */
  function Climb(parents: Parents, seen: seq<nat>): (r: seq<nat>)
    requires seen != [] && Distinct(seen)
    ensures Distinct(r) && seen <= r
    decreases |parents.Keys - Elements(seen[..|seen| - 1])|
  {
    var cur := seen[|seen| - 1];
    if HasParent(parents, cur) && parents[cur].value.1 !in seen then
      var next := seen + [parents[cur].value.1];
      assert next[..|next| - 1] == seen;
      ClimbShrinks(parents, seen);
      Climb(parents, next)
    else seen
  }

  lemma ClimbShrinks(parents: Parents, seen: seq<nat>)
    requires seen != [] && Distinct(seen) && seen[|seen| - 1] in parents
    ensures |parents.Keys - Elements(seen)| < |parents.Keys - Elements(seen[..|seen| - 1])|
  {
    var n := |seen| - 1;
    assert seen == seen[..n] + [seen[n]];
    ElementsConcat(seen[..n], [seen[n]]);
    assert Elements([seen[n]]) == {seen[n]};
    assert seen[n] !in seen[..n];
    assert parents.Keys - Elements(seen) == (parents.Keys - Elements(seen[..n])) - {seen[n]};
  }

  predicate SlashOnly(p: string) {
    Core(p) == ""
  }

  /** Each function's recorded parent is the next one. */
  ghost predicate Steps(parents: Parents, climb: seq<nat>) {
    |climb| <= 1
    || (HasParent(parents, climb[0]) && parents[climb[0]].value.1 == climb[1] && Steps(parents, climb[1..]))
  }

  lemma {:induction false} StepsPush(parents: Parents, climb: seq<nat>)
    requires climb != [] && Steps(parents, climb) && HasParent(parents, climb[|climb| - 1])
    ensures Steps(parents, climb + [parents[climb[|climb| - 1]].value.1])
  {
    var next := parents[climb[|climb| - 1]].value.1;
    assert (climb + [next])[1..] == climb[1..] + [next];
    if |climb| > 1 {
      StepsPush(parents, climb[1..]);
    }
  }

  /** The segments along a climb from the function upwards, mounts at "/" left out. */
  ghost function Collected(parents: Parents, climb: seq<nat>): seq<string>
    requires Steps(parents, climb)
  {
    if |climb| <= 1 then []
    else
      var p := parents[climb[0]].value.0;
      (if SlashOnly(p) then [] else [p]) + Collected(parents, climb[1..])
  }

  lemma {:induction false} CollectedPush(parents: Parents, climb: seq<nat>)
    requires climb != [] && Steps(parents, climb) && HasParent(parents, climb[|climb| - 1])
    ensures var (p, next) := parents[climb[|climb| - 1]].value;
            && Steps(parents, climb + [next])
            && Collected(parents, climb + [next]) == Collected(parents, climb) + (if SlashOnly(p) then [] else [p])
  {
    StepsPush(parents, climb);
    var (p, next) := parents[climb[|climb| - 1]].value;
    assert (climb + [next])[1..] == climb[1..] + [next];
    var tail: seq<string> := if SlashOnly(p) then [] else [p];
    if |climb| > 1 {
      CollectedPush(parents, climb[1..]);
      var q := parents[climb[0]].value.0;
      Regroup(if SlashOnly(q) then [] else [q], Collected(parents, climb[1..]), tail);
    } else {
      assert Collected(parents, (climb + [next])[1..]) == [];
      assert tail + [] == tail && [] + tail == tail;
    }
  }

  lemma {:induction false} ClimbSteps(parents: Parents, seen: seq<nat>)
    requires seen != [] && Distinct(seen) && Steps(parents, seen)
    ensures Steps(parents, Climb(parents, seen))
    decreases |parents.Keys - Elements(seen[..|seen| - 1])|
  {
    var cur := seen[|seen| - 1];
    if HasParent(parents, cur) && parents[cur].value.1 !in seen {
      var next := seen + [parents[cur].value.1];
      assert next[..|next| - 1] == seen;
      ClimbShrinks(parents, seen);
      StepsPush(parents, seen);
      ClimbSteps(parents, next);
    }
  }

  /** Joining segments outermost first, from the last back to the first. */
  function FoldBack(segs: seq<string>): string {
    if segs == [] then "" else JoinPrefix(FoldBack(segs[1..]), segs[0])
  }

  /** The segments of a router function and of what it is nested in. */
  ghost function RustSegments(parents: Parents, id: nat): seq<string> {
    ClimbSteps(parents, [id]);
    Collected(parents, Climb(parents, [id]))
  }

  /** The prefix of a router function. */
  ghost function RustPrefix(parents: Parents, id: nat): string {
    FoldBack(RustSegments(parents, id))
  }

  /** The climb: it ends on every map of parents, since no function is met twice. */
  method CollectSegments(parents: Parents, id: nat) returns (segs: seq<string>)
    ensures segs == RustSegments(parents, id)
  {
    segs := [];
    var cur := id;
    var seen := [id];
    while HasParent(parents, cur)
      invariant seen != [] && Distinct(seen) && Steps(parents, seen) && seen[|seen| - 1] == cur
      invariant Climb(parents, seen) == Climb(parents, [id])
      invariant segs == Collected(parents, seen)
      decreases |parents.Keys - Elements(seen[..|seen| - 1])|
    {
      var (p, parent) := parents[cur].value;
      if parent in seen {
        break;
      }
      ClimbShrinks(parents, seen);
      CollectedPush(parents, seen);
      if !SlashOnly(p) {
        segs := segs + [p];
      }
      assert (seen + [parent])[..|seen|] == seen;
      seen := seen + [parent];
      cur := parent;
    }
  }

  method RustFnPrefix(parents: Parents, id: nat) returns (prefix: string)
    ensures prefix == RustPrefix(parents, id)
  {
    var segs := CollectSegments(parents, id);
    prefix := "";
    var i := |segs|;
    assert segs[i..] == [];
    while i > 0
      invariant 0 <= i <= |segs|
      invariant prefix == FoldBack(segs[i..])
    {
      i := i - 1;
      assert segs[i..][1..] == segs[i + 1..];
      prefix := JoinPrefix(prefix, segs[i]);
    }
    assert segs[0..] == segs;
  }

  /** `climb` follows parents, meets no function twice, and ends where there is no parent, or where
      the parent is on the climb already. */
  ghost predicate FullClimb(parents: Parents, climb: seq<nat>) {
    climb != [] && Distinct(climb) && Steps(parents, climb) && Stuck(parents, climb)
  }

  ghost predicate Stuck(parents: Parents, climb: seq<nat>)
    requires climb != []
  {
    var last := climb[|climb| - 1];
    HasParent(parents, last) ==> parents[last].value.1 in climb
  }

  lemma {:induction false} StepAt(parents: Parents, climb: seq<nat>, i: nat)
    requires Steps(parents, climb) && i + 1 < |climb|
    ensures HasParent(parents, climb[i]) && parents[climb[i]].value.1 == climb[i + 1]
  {
    if i > 0 { StepAt(parents, climb[1..], i - 1); }
  }

  lemma {:induction false} FullClimbIsClimb(parents: Parents, climb: seq<nat>, n: nat)
    requires FullClimb(parents, climb) && 0 < n <= |climb|
    ensures Distinct(climb[..n]) && Climb(parents, climb[..n]) == climb
    decreases |climb| - n
  {
    var seen := climb[..n];
    if n < |climb| {
      StepAt(parents, climb, n - 1);
      FullClimbIsClimb(parents, climb, n + 1);
      assert seen + [climb[n]] == climb[..n + 1];
      assert climb[n] !in seen;
    } else {
      assert seen == climb;
    }
  }

  lemma {:induction false} ClimbEnds(parents: Parents, seen: seq<nat>)
    requires seen != [] && Distinct(seen)
    ensures Climb(parents, seen) != [] && Stuck(parents, Climb(parents, seen))
    decreases |parents.Keys - Elements(seen[..|seen| - 1])|
  {
    var cur := seen[|seen| - 1];
    if HasParent(parents, cur) && parents[cur].value.1 !in seen {
      var next := seen + [parents[cur].value.1];
      assert next[..|next| - 1] == seen;
      ClimbShrinks(parents, seen);
      ClimbEnds(parents, next);
      assert Climb(parents, seen) == Climb(parents, next);
    } else {
      assert Climb(parents, seen) == seen;
    }
  }

  lemma RustPrefixIs(parents: Parents, climb: seq<nat>)
    requires FullClimb(parents, climb)
    ensures RustPrefix(parents, climb[0]) == FoldBack(Collected(parents, climb))
  {
    FullClimbIsClimb(parents, climb, 1);
    assert climb[..1] == [climb[0]];
  }

  /** On every map of parents, cyclic ones included, there is one full climb from a function, and the
      prefix is the fold of the segments along it, outermost first. */
  lemma RustPrefixMeaning(parents: Parents, id: nat)
    ensures exists climb :: FullClimb(parents, climb) && climb[0] == id
    ensures forall climb :: FullClimb(parents, climb) && climb[0] == id ==>
              RustPrefix(parents, id) == FoldBack(Collected(parents, climb))
  {
    ClimbEnds(parents, [id]);
    ClimbSteps(parents, [id]);
    assert FullClimb(parents, Climb(parents, [id]));
    forall climb | FullClimb(parents, climb) && climb[0] == id
      ensures RustPrefix(parents, id) == FoldBack(Collected(parents, climb))
    {
      RustPrefixIs(parents, climb);
    }
  }

  lemma FoldBackStep(p: string, segs: seq<string>)
    ensures FoldBack((if SlashOnly(p) then [] else [p]) + segs) ==
            if SlashOnly(p) then FoldBack(segs) else JoinPrefix(FoldBack(segs), p)
  {
    assert [] + segs == segs;
    assert ([p] + segs)[1..] == segs;
  }

  lemma ClimbTail(parents: Parents, climb: seq<nat>)
    requires FullClimb(parents, climb) && |climb| > 1 && !HasParent(parents, climb[|climb| - 1])
    ensures FullClimb(parents, climb[1..])
  {
    var rest := climb[1..];
    assert rest[|rest| - 1] == climb[|climb| - 1];
  }

  /** Where the mounts lead to an unmounted function, the prefix is the parent's with one more
      segment. */
  lemma RustPrefixStep(parents: Parents, climb: seq<nat>)
    requires FullClimb(parents, climb) && !HasParent(parents, climb[|climb| - 1])
    ensures |climb| == 1 ==> RustPrefix(parents, climb[0]) == ""
    ensures |climb| > 1 ==>
              HasParent(parents, climb[0]) &&
              var (p, parent) := parents[climb[0]].value;
              RustPrefix(parents, climb[0]) ==
                if SlashOnly(p) then RustPrefix(parents, parent) else JoinPrefix(RustPrefix(parents, parent), p)
  {
    RustPrefixIs(parents, climb);
    if |climb| > 1 {
      ClimbTail(parents, climb);
      RustPrefixIs(parents, climb[1..]);
      FoldBackStep(parents[climb[0]].value.0, Collected(parents, climb[1..]));
    }
  }

  // ---- JavaScript: files mounted from files ----

  type MountFiles = map<nat, Option<(nat, string)>>

  const MAX_LINKS: nat := 4

  /** The prefixes of the first `n` links above a file, innermost first; `None` past an ambiguous one. */
  function FileParts(m: MountFiles, f: nat, n: nat): Option<seq<string>>
    decreases n
  {
    if n == 0 || f !in m then Some([])
    else match m[f]
      case None => None
      case Some(link) =>
        if link.0 == f then Some([link.1])
        else match FileParts(m, link.0, n - 1)
          case None => None
          case Some(rest) => Some([link.1] + rest)
  }

  ghost function Then(parts: seq<string>, rest: Option<seq<string>>): Option<seq<string>> {
    if rest.None? then None else Some(parts + rest.value)
  }

  lemma ThenNothing(rest: Option<seq<string>>)
    ensures Then([], rest) == rest
  {
    assert rest.Some? ==> [] + rest.value == rest.value;
  }

  function FileMount(m: MountFiles, f: nat): Option<string> {
    match FileParts(m, f, MAX_LINKS)
    case None => None
    case Some(parts) => if parts == [] then None else Some(FoldBack(parts))
  }

  method FileMountPrefix(m: MountFiles, f: nat) returns (r: Option<string>)
    ensures r == FileMount(m, f)
  {
    var parts: seq<string> := [];
    var cur := f;
    ThenNothing(FileParts(m, f, MAX_LINKS));
    for n := 0 to MAX_LINKS
      invariant FileParts(m, f, MAX_LINKS) == Then(parts, FileParts(m, cur, MAX_LINKS - n))
    {
      if cur !in m {
        break;
      }
      match m[cur] {
        case None => return None;
        case Some(link) =>
          if link.0 == cur {
            parts := parts + [link.1];
            r := FoldParts(parts);
            return;
          }
          ghost var rest := FileParts(m, link.0, MAX_LINKS - n - 1);
          if rest.Some? {
            Regroup(parts, [link.1], rest.value);
          }
          parts := parts + [link.1];
          cur := link.0;
      }
    }
    assert parts + [] == parts;
    r := FoldParts(parts);
  }

  method FoldParts(parts: seq<string>) returns (r: Option<string>)
    ensures r == if parts == [] then None else Some(FoldBack(parts))
  {
    if parts == [] {
      return None;
    }
    var acc := "";
    var i := |parts|;
    assert parts[i..] == [];
    while i > 0
      invariant 0 <= i <= |parts| && acc == FoldBack(parts[i..])
    {
      i := i - 1;
      assert parts[i..][1..] == parts[i + 1..];
      acc := JoinPrefix(acc, parts[i]);
    }
    assert parts[0..] == parts;
    r := Some(acc);
  }

  /** `links` are the files above `f`, up to one that is not mounted or mounts itself. */
  ghost predicate FileChain(m: MountFiles, f: nat, links: seq<nat>)
    decreases |links|
  {
    if links == [] then f !in m
    else
      && f in m && m[f].Some? && m[f].value.0 == links[0]
      && (if links[0] == f then |links| == 1 else FileChain(m, links[0], links[1..]))
  }

  ghost function ChainParts(m: MountFiles, f: nat, links: seq<nat>): seq<string>
    requires FileChain(m, f, links)
    decreases |links|
  {
    if links == [] then []
    else if links[0] == f then [m[f].value.1]
    else [m[f].value.1] + ChainParts(m, links[0], links[1..])
  }

  lemma {:induction false} ChainWithin(m: MountFiles, f: nat, links: seq<nat>, n: nat)
    requires FileChain(m, f, links)
    ensures |ChainParts(m, f, links)| == |links|
    ensures FileParts(m, f, n) == Some(if n < |links| then ChainParts(m, f, links)[..n] else ChainParts(m, f, links))
    decreases |links|
  {
    if links != [] && links[0] != f {
      ChainWithin(m, links[0], links[1..], if n > 0 then n - 1 else 0);
      var rest := ChainParts(m, links[0], links[1..]);
      if 0 < n < |links| {
        assert ([m[f].value.1] + rest)[..n] == [m[f].value.1] + rest[..n - 1];
      }
    }
  }

  /** A chain of up to four links composes as a whole; of a longer one only the four links nearest
      the file count, so its prefix is a part of the composed path. */
  lemma FileMountMeaning(m: MountFiles, f: nat, links: seq<nat>)
    requires FileChain(m, f, links)
    ensures |ChainParts(m, f, links)| == |links|
    ensures FileMount(m, f) ==
      if links == [] then None
      else if |links| <= MAX_LINKS then Some(FoldBack(ChainParts(m, f, links)))
      else Some(FoldBack(ChainParts(m, f, links)[..MAX_LINKS]))
  {
    ChainWithin(m, f, links, MAX_LINKS);
  }

  ghost function FoldBackOn(base: string, parts: seq<string>): string {
    if parts == [] then base else JoinPrefix(FoldBackOn(base, parts[1..]), parts[0])
  }

  lemma {:induction false} FoldBackSplits(inner: seq<string>, outer: seq<string>)
    ensures FoldBack(inner + outer) == FoldBackOn(FoldBack(outer), inner)
    ensures FoldBack(inner) == FoldBackOn("", inner)
  {
    if inner == [] {
      assert inner + outer == outer;
    } else {
      FoldBackSplits(inner[1..], outer);
      ConcatTail(inner, outer);
    }
  }

  lemma {:induction false} SegsOfFoldBackOn(base: string, parts: seq<string>)
    ensures Segs(FoldBackOn(base, parts)) == Segs(base) + Segs(FoldBackOn("", parts))
  {
    SegsOfNothing();
    if parts == [] {
      assert Segs(base) + [] == Segs(base);
    } else {
      SegsOfFoldBackOn(base, parts[1..]);
      SegsOfJoin(FoldBackOn(base, parts[1..]), parts[0]);
      SegsOfJoin(FoldBackOn("", parts[1..]), parts[0]);
      Regroup(Segs(base), Segs(FoldBackOn("", parts[1..])), Segs(parts[0]));
    }
  }

  /** Slashes alone make no segment, and anything else does. */
  lemma SlashOnlyMeaning(p: string)
    ensures SlashOnly(p) <==> Segs(p) == []
  {
    SegsOfTrimStart(p);
    SegsOfTrimEnd(TrimStart(p));
    SegsOfNothing();
    CoreShape(p);
    if Core(p) != "" {
      assert Split(Core(p))[0] != "";
    }
  }

  lemma {:induction false} SlashOnlyFold(parts: seq<string>)
    ensures SlashOnly(FoldBack(parts)) <==> forall i :: 0 <= i < |parts| ==> SlashOnly(parts[i])
  {
    if parts != [] {
      SlashOnlyFold(parts[1..]);
      JoinParts(FoldBack(parts[1..]), parts[0]);
      assert forall i :: 1 <= i < |parts| ==> parts[i] == parts[1..][i - 1];
    }
  }

  lemma {:induction false} SlashOnlyBase(base: string, parts: seq<string>)
    requires SlashOnly(base) && parts != []
    ensures FoldBackOn(base, parts) == FoldBackOn("", parts)
  {
    if |parts| == 1 {
      JoinIsGlue(base, parts[0]);
      JoinIsGlue("", parts[0]);
    } else {
      SlashOnlyBase(base, parts[1..]);
    }
  }

  ghost predicate SlashesFrom(parts: seq<string>, k: nat) {
    forall i :: k <= i < |parts| ==> SlashOnly(parts[i])
  }

  lemma SlashesTail(parts: seq<string>, k: nat)
    requires k <= |parts|
    ensures SlashesFrom(parts, k) <==> SlashesFrom(parts[k..], 0)
  {
    if SlashesFrom(parts[k..], 0) {
      forall i | k <= i < |parts|
        ensures SlashOnly(parts[i])
      {
        assert parts[i] == parts[k..][i - k];
      }
    }
  }

  /** Folding on top of `outer` makes no difference exactly when `outer` has no segment. */
  lemma OuterMatters(inner: seq<string>, outer: seq<string>)
    requires inner != []
    ensures FoldBack(inner) == FoldBack(inner + outer) <==> SlashesFrom(outer, 0)
  {
    FoldBackSplits(inner, outer);
    SlashOnlyFold(outer);
    if SlashOnly(FoldBack(outer)) {
      SlashOnlyBase(FoldBack(outer), inner);
    } else {
      SegsOfFoldBackOn(FoldBack(outer), inner);
      SlashOnlyMeaning(FoldBack(outer));
    }
  }

  /** The prefix is the whole composed path exactly when every link beyond the fourth mounts at "/". */
  lemma FileMountWhole(m: MountFiles, f: nat, links: seq<nat>)
    requires FileChain(m, f, links) && links != []
    ensures |ChainParts(m, f, links)| == |links|
    ensures FileMount(m, f) == Some(FoldBack(ChainParts(m, f, links))) <==>
              SlashesFrom(ChainParts(m, f, links), MAX_LINKS)
  {
    FileMountMeaning(m, f, links);
    if |links| > MAX_LINKS {
      LongChain(ChainParts(m, f, links));
    }
  }

  lemma LongChain(parts: seq<string>)
    requires |parts| > MAX_LINKS
    ensures FoldBack(parts[..MAX_LINKS]) == FoldBack(parts) <==> SlashesFrom(parts, MAX_LINKS)
  {
    var inner, outer := parts[..MAX_LINKS], parts[MAX_LINKS..];
    assert parts == inner + outer;
    OuterMatters(inner, outer);
    SlashesTail(parts, MAX_LINKS);
  }

  /** `links` lead from `f` up to a file whose mounts disagree. */
  ghost predicate AmbiguousChain(m: MountFiles, f: nat, links: seq<nat>)
    decreases |links|
  {
    && f in m
    && (if links == [] then m[f].None?
        else m[f].Some? && m[f].value.0 == links[0] && links[0] != f && AmbiguousChain(m, links[0], links[1..]))
  }

  lemma {:induction false} AmbiguousWithin(m: MountFiles, f: nat, links: seq<nat>, n: nat)
    requires AmbiguousChain(m, f, links)
    ensures FileParts(m, f, n).None? <==> |links| < n
    ensures n > 0 && FileParts(m, f, n).Some? ==> FileParts(m, f, n).value != []
    decreases |links|
  {
    if links != [] && n > 0 {
      AmbiguousWithin(m, links[0], links[1..], n - 1);
    }
  }

  /** A disagreement above a file leaves it without a prefix exactly when it lies within four links. */
  lemma AmbiguousMountMeaning(m: MountFiles, f: nat, links: seq<nat>)
    requires AmbiguousChain(m, f, links)
    ensures FileMount(m, f) == None <==> |links| < MAX_LINKS
  {
    AmbiguousWithin(m, f, links, MAX_LINKS);
  }

  /** `links` are known mounts one above the other; only the last may be of a file from itself. */
  ghost predicate KnownLinks(m: MountFiles, f: nat, links: seq<nat>)
    decreases |links|
  {
    links == [] ||
      (f in m && m[f].Some? && m[f].value.0 == links[0]
       && (links[0] == f ==> |links| == 1) && KnownLinks(m, links[0], links[1..]))
  }

  ghost function KnownParts(m: MountFiles, f: nat, links: seq<nat>): seq<string>
    requires KnownLinks(m, f, links)
    decreases |links|
  {
    if links == [] then [] else [m[f].value.1] + KnownParts(m, links[0], links[1..])
  }

  lemma {:induction false} KnownWithin(m: MountFiles, f: nat, links: seq<nat>)
    requires KnownLinks(m, f, links)
    ensures FileParts(m, f, |links|) == Some(KnownParts(m, f, links)) && |KnownParts(m, f, links)| == |links|
    decreases |links|
  {
    if links != [] {
      KnownWithin(m, links[0], links[1..]);
      assert [m[f].value.1] + [] == [m[f].value.1];
    }
  }

  /** Four known links decide: whatever lies above them, an end, a disagreement or a cycle. */
  lemma FourLinksDecide(m: MountFiles, f: nat, links: seq<nat>)
    requires KnownLinks(m, f, links) && |links| == MAX_LINKS
    ensures FileMount(m, f) == Some(FoldBack(KnownParts(m, f, links)))
  {
    KnownWithin(m, f, links);
  }

  lemma {:induction false} LinksEnd(m: MountFiles, f: nat, n: nat) returns (links: seq<nat>)
    ensures || (FileChain(m, f, links) && |links| <= n)
            || (AmbiguousChain(m, f, links) && |links| < n)
            || (KnownLinks(m, f, links) && |links| == n)
    decreases n
  {
    links := [];
    if n > 0 && f in m && m[f].Some? {
      var from := m[f].value.0;
      if from == f {
        links := [f];
      } else {
        var rest := LinksEnd(m, from, n - 1);
        links := [from] + rest;
        assert links[1..] == rest;
      }
    }
  }

  /** On every map a file falls under one of the three: a chain of at most four links to an end
      (`FileMountMeaning`), a disagreement within four (`AmbiguousMountMeaning`), or four known links
      (`FourLinksDecide`). */
  lemma FileMountCases(m: MountFiles, f: nat)
    ensures || (exists links :: FileChain(m, f, links) && |links| <= MAX_LINKS)
            || (exists links :: AmbiguousChain(m, f, links) && |links| < MAX_LINKS)
            || (exists links :: KnownLinks(m, f, links) && |links| == MAX_LINKS)
  {
    var links := LinksEnd(m, f, MAX_LINKS);
  }

  function Mount(from: nat, prefix: string): Option<(nat, string)> {
    Some((from, prefix))
  }

  function FiveFiles(): MountFiles {
    map[0 := Mount(1, "/a"), 1 := Mount(2, "/b"), 2 := Mount(3, "/c"), 3 := Mount(4, "/d"), 4 := Mount(5, "/e")]
  }

  lemma FiveChain()
    ensures FileChain(FiveFiles(), 0, [1, 2, 3, 4, 5])
  {
    var m := FiveFiles();
    assert FileChain(m, 4, [5]);
    assert FileChain(m, 3, [4, 5]) by { assert [4, 5][1..] == [5]; }
    assert FileChain(m, 2, [3, 4, 5]) by { assert [3, 4, 5][1..] == [4, 5]; }
    assert FileChain(m, 1, [2, 3, 4, 5]) by { assert [2, 3, 4, 5][1..] == [3, 4, 5]; }
    assert FileChain(m, 0, [1, 2, 3, 4, 5]) by { assert [1, 2, 3, 4, 5][1..] == [2, 3, 4, 5]; }
  }

  lemma FifthMatters(parts: seq<string>)
    requires |parts| == 5 && parts[4] == "/e"
    ensures FoldBack(parts[..4]) != FoldBack(parts)
  {
    LongChain(parts);
    assert TrimStart("/e") == "e" by { assert "/e"[1..] == "e"; }
    assert !SlashOnly(parts[4]);
  }

  /** Five files mounted one from the next: the outermost prefix, "/e", is lost. */
  lemma FifthLinkIsLost()
    ensures FileChain(FiveFiles(), 0, [1, 2, 3, 4, 5])
    ensures FileMount(FiveFiles(), 0) == Some(FoldBack(["/a", "/b", "/c", "/d"]))
    ensures FileMount(FiveFiles(), 0) != Some(FoldBack(["/a", "/b", "/c", "/d", "/e"]))
  {
    FiveChain();
    FourParts(FiveFiles(), 0, 1, 2, 3, 4, "/a", "/b", "/c", "/d");
    var parts := ["/a", "/b", "/c", "/d", "/e"];
    assert parts[..4] == ["/a", "/b", "/c", "/d"];
    FifthMatters(parts);
  }

  lemma FourParts(m: MountFiles, a: nat, b: nat, c: nat, d: nat, e: nat, p: string, q: string, r: string, s: string)
    requires a in m && m[a] == Mount(b, p) && b in m && m[b] == Mount(c, q)
    requires c in m && m[c] == Mount(d, r) && d in m && m[d] == Mount(e, s)
    requires a != b && b != c && c != d
    ensures FileMount(m, a) == Some(FoldBack([p, q, r, s]))
  {
    assert FileParts(m, e, 0) == Some([]);
    assert FileParts(m, d, 1) == Some([s]) by { assert [s] + [] == [s]; }
    assert FileParts(m, c, 2) == Some([r, s]) by { assert [r] + [s] == [r, s]; }
    assert FileParts(m, b, 3) == Some([q, r, s]) by { assert [q] + [r, s] == [q, r, s]; }
    assert FileParts(m, a, 4) == Some([p, q, r, s]) by { assert [p] + [q, r, s] == [p, q, r, s]; }
  }

  /** A disagreement at the fourth file up goes unnoticed. */
  lemma FarDisagreementIsMissed()
    ensures var m: MountFiles :=
              map[0 := Mount(1, "/a"), 1 := Mount(2, "/b"), 2 := Mount(3, "/c"), 3 := Mount(4, "/d"), 4 := None];
            && AmbiguousChain(m, 0, [1, 2, 3, 4])
            && FileMount(m, 0) == Some(FoldBack(["/a", "/b", "/c", "/d"]))
  {
    var m: MountFiles :=
      map[0 := Mount(1, "/a"), 1 := Mount(2, "/b"), 2 := Mount(3, "/c"), 3 := Mount(4, "/d"), 4 := None];
    assert AmbiguousChain(m, 4, []);
    assert AmbiguousChain(m, 3, [4]) by { assert [4][1..] == []; }
    assert AmbiguousChain(m, 2, [3, 4]) by { assert [3, 4][1..] == [4]; }
    assert AmbiguousChain(m, 1, [2, 3, 4]) by { assert [2, 3, 4][1..] == [3, 4]; }
    assert AmbiguousChain(m, 0, [1, 2, 3, 4]) by { assert [1, 2, 3, 4][1..] == [2, 3, 4]; }
    FourParts(m, 0, 1, 2, 3, 4, "/a", "/b", "/c", "/d");
  }

  /** Two files mounted from each other: their prefixes are composed twice over. */
  lemma CycleIsComposed()
    ensures var m := map[0 := Mount(1, "/a"), 1 := Mount(0, "/b")];
            FileMount(m, 0) == Some(FoldBack(["/a", "/b", "/a", "/b"]))
  {
    var m := map[0 := Mount(1, "/a"), 1 := Mount(0, "/b")];
    FourParts(m, 0, 1, 0, 1, 0, "/a", "/b", "/a", "/b");
  }
}
